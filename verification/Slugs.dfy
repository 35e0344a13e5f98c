/**
 Slugs and proposal directory names (crates/maintenance/src/merge.rs, promote.rs).
 A slug never holds two dashes in a row, so `--` separates slugs unambiguously.
 */
module Slugs {
  import opened Filtering
  import opened Texts

  predicate IsSlugLetter(c: char) {
    'a' <= c <= 'z' || '0' <= c <= '9'
  }

  /** Lower-cases an ASCII letter, keeps a digit, turns anything else into a dash. */
  function NormalizeChar(c: char): char {
    if IsSlugLetter(c) then c
    else if 'A' <= c <= 'Z' then c - 'A' + 'a'
    else '-'
  }

  function Normalize(value: string): (r: string)
    ensures |r| == |value| && forall i :: 0 <= i < |r| ==> r[i] == NormalizeChar(value[i])
  {
    seq(|value|, i requires 0 <= i < |value| => NormalizeChar(value[i]))
  }

  function NonEmpty(): string -> bool {
    (segment: string) => segment != ""
  }

  /** `slugify`; the two copies differ only in the fallback for an empty slug. */
  function Slugify(value: string, fallback: string): string {
    var slug := Join('-', Select(NonEmpty(), Split('-', Normalize(value))));
    if slug == "" then fallback else slug
  }

  const MERGE_FALLBACK := "merged-skill"
  const PROMOTE_FALLBACK := "promoted-skill"

  // ---- What a slug keeps ----

  predicate IsLetterOrDigit(c: char) {
    'a' <= c <= 'z' || 'A' <= c <= 'Z' || '0' <= c <= '9'
  }

  predicate IsLowered(s: string, value: string) {
    |s| == |value| && forall i :: 0 <= i < |s| ==>
      if 'A' <= value[i] <= 'Z' then s[i] as int == value[i] as int + 32 else s[i] == value[i]
  }

  /** A word of ASCII letters and digits becomes itself in lower case. */
  lemma WordIsKept(value: string, fallback: string)
    requires value != "" && forall i :: 0 <= i < |value| ==> IsLetterOrDigit(value[i])
    ensures IsLowered(Slugify(value, fallback), value)
  {
    var s := Normalize(value);
    forall i | 0 <= i < |s| ensures s[i] != '-' {
      assert s[i] == NormalizeChar(value[i]);
    }
    SplitsAfter('-', s, "");
    assert [s][..0] == [] && Select(NonEmpty(), []) == [];
    assert Select(NonEmpty(), [s]) == [s];
  }

  /** Whatever is no ASCII letter or digit only separates: any such character may stand for another. */
  lemma SeparatorsAreAlike(a: string, b: string, fallback: string)
    requires |a| == |b|
    requires forall i :: 0 <= i < |a| ==> a[i] == b[i] || (!IsLetterOrDigit(a[i]) && !IsLetterOrDigit(b[i]))
    ensures Slugify(a, fallback) == Slugify(b, fallback)
  {
    assert Normalize(a) == Normalize(b);
  }

  // ---- The shape of a slug ----

  predicate DoubleDashAt(s: string, i: int) {
    0 <= i < |s| - 1 && s[i] == '-' && s[i + 1] == '-'
  }

  /** Non-empty, over [a-z0-9-], no dash at either end and no two in a row. */
  predicate IsSlug(s: string) {
    && s != ""
    && (forall i :: 0 <= i < |s| ==> IsSlugLetter(s[i]) || s[i] == '-')
    && s[0] != '-' && s[|s| - 1] != '-'
    && forall i | 0 <= i < |s| :: !DoubleDashAt(s, i)
  }

  predicate IsSegment(s: string) {
    s != "" && forall i :: 0 <= i < |s| ==> IsSlugLetter(s[i])
  }

  lemma {:induction false} SplitSegments(s: string)
    requires forall i :: 0 <= i < |s| ==> IsSlugLetter(s[i]) || s[i] == '-'
    ensures forall segment :: segment in Split('-', s) && segment != "" ==> IsSegment(segment)
  {
    if s != "" {
      SplitSegments(s[1..]);
      var rest := Split('-', s[1..]);
      assert rest[0] in rest && forall x :: x in rest[1..] ==> x in rest;
      assert s[0] != '-' ==> (rest[0] == "" || IsSegment(rest[0])) && IsSegment([s[0]] + rest[0]);
    }
  }

  lemma {:induction false} JoinIsSlug(segments: seq<string>)
    requires segments != [] && forall segment :: segment in segments ==> IsSegment(segment)
    ensures IsSlug(Join('-', segments))
  {
    var head := segments[0];
    assert IsSegment(head);
    if |segments| > 1 {
      JoinIsSlug(segments[1..]);
      SlugExtends(head, Join('-', segments[1..]));
    }
  }

  lemma SlugExtends(head: string, tail: string)
    requires IsSegment(head) && IsSlug(tail)
    ensures IsSlug(head + "-" + tail)
  {
    var s := head + "-" + tail;
    forall i | 0 <= i < |s| ensures IsSlugLetter(s[i]) || s[i] == '-' {
      assert s[i] == if i < |head| then head[i] else if i == |head| then '-' else tail[i - |head| - 1];
    }
    forall i | 0 <= i < |s| ensures !DoubleDashAt(s, i) {
      if i > |head| {
        assert !DoubleDashAt(tail, i - |head| - 1);
      }
    }
  }

  /** Every value becomes a well-formed slug. */
  lemma SlugifyIsSlug(value: string, fallback: string)
    requires IsSlug(fallback)
    ensures IsSlug(Slugify(value, fallback))
  {
    var segments := Select(NonEmpty(), Split('-', Normalize(value)));
    SplitSegments(Normalize(value));
    SelectMembers(NonEmpty(), Split('-', Normalize(value)));
    if segments != [] {
      JoinIsSlug(segments);
    }
  }

  // ---- Idempotence ----

  lemma {:induction false} SlugHasNoEmptySegment(s: string)
    requires forall i | 0 <= i < |s| :: !DoubleDashAt(s, i)
    requires s == "" || s[|s| - 1] != '-'
    ensures forall k :: 0 < k < |Split('-', s)| ==> Split('-', s)[k] != ""
    ensures Split('-', s)[0] == "" <==> s == "" || s[0] == '-'
  {
    if s != "" {
      forall i | 0 <= i < |s[1..]| ensures !DoubleDashAt(s[1..], i) {
        assert !DoubleDashAt(s, i + 1);
      }
      assert !DoubleDashAt(s, 0);
      SlugHasNoEmptySegment(s[1..]);
    }
  }

  /** Slugs are their own slugs. */
  lemma SlugifyIsIdempotent(value: string, fallback: string)
    requires IsSlug(fallback)
    ensures Slugify(Slugify(value, fallback), fallback) == Slugify(value, fallback)
  {
    SlugifyIsSlug(value, fallback);
    SlugIsFixed(Slugify(value, fallback), fallback);
  }

  lemma SlugIsFixed(s: string, fallback: string)
    requires IsSlug(s)
    ensures Slugify(s, fallback) == s
  {
    assert Normalize(s) == s;
    SlugHasNoEmptySegment(s);
    SelectAll(NonEmpty(), Split('-', s));
    JoinUndoesSplit('-', s);
  }

  // ---- Directory names ----

  /** Where the first `--` stands, or the length when there is none. */
  function FirstDoubleDash(s: string): (n: nat)
    ensures n <= |s|
  {
    if s == "" then 0
    else if |s| >= 2 && s[0] == '-' && s[1] == '-' then 0
    else 1 + FirstDoubleDash(s[1..])
  }

  lemma {:induction false} FirstDoubleDashAfterSlug(slug: string, rest: string)
    requires slug != "" ==> slug[|slug| - 1] != '-'
    requires forall i | 0 <= i < |slug| :: !DoubleDashAt(slug, i)
    ensures FirstDoubleDash(slug + "--" + rest) == |slug|
  {
    var s := slug + "--" + rest;
    if slug == "" {
      assert s == "--" + rest;
    } else {
      forall i | 0 <= i < |slug[1..]| ensures !DoubleDashAt(slug[1..], i) {
        assert !DoubleDashAt(slug, i + 1);
      }
      assert !DoubleDashAt(slug, 0);
      FirstDoubleDashAfterSlug(slug[1..], rest);
      assert s[1..] == slug[1..] + "--" + rest;
    }
  }

  lemma {:induction false} NoDoubleDash(s: string)
    requires forall i | 0 <= i < |s| :: !DoubleDashAt(s, i)
    ensures FirstDoubleDash(s) == |s|
  {
    if s != "" {
      forall i | 0 <= i < |s[1..]| ensures !DoubleDashAt(s[1..], i) {
        assert !DoubleDashAt(s, i + 1);
      }
      assert !DoubleDashAt(s, 0);
      NoDoubleDash(s[1..]);
    }
  }

  /** The parts between double dashes. */
  function Decode(s: string): seq<string>
    decreases |s|
  {
    var n := FirstDoubleDash(s);
    if n + 2 <= |s| then [s[..n]] + Decode(s[n + 2..]) else [s]
  }

  lemma DecodeStep(slug: string, rest: string)
    requires IsSlug(slug)
    ensures Decode(slug + "--" + rest) == [slug] + Decode(rest)
  {
    FirstDoubleDashAfterSlug(slug, rest);
    var s := slug + "--" + rest;
    assert s[..|slug|] == slug && s[|slug| + 2..] == rest;
  }

  lemma DecodeLast(slug: string)
    requires IsSlug(slug)
    ensures Decode(slug) == [slug]
  {
    NoDoubleDash(slug);
  }

  /** merge: `{names}--{left id}--{right id}` */
  function MergeDirectoryName(leftName: string, rightName: string, leftId: string, rightId: string): string {
    Slugify(leftName + "-" + rightName, MERGE_FALLBACK) + "--" + Slugify(leftId, MERGE_FALLBACK)
      + "--" + Slugify(rightId, MERGE_FALLBACK)
  }

  function PromotionDirectoryName(skillId: string): string {
    "promote" + "--" + Slugify(skillId, PROMOTE_FALLBACK)
  }

  function DemotionDirectoryName(skillId: string): string {
    "demote" + "--" + Slugify(skillId, PROMOTE_FALLBACK)
  }

  /** A merge directory name decodes to its three slugs. */
  lemma MergeNameDecodes(leftName: string, rightName: string, leftId: string, rightId: string)
    ensures Decode(MergeDirectoryName(leftName, rightName, leftId, rightId))
      == [Slugify(leftName + "-" + rightName, MERGE_FALLBACK), Slugify(leftId, MERGE_FALLBACK), Slugify(rightId, MERGE_FALLBACK)]
  {
    var a, b, c := Slugify(leftName + "-" + rightName, MERGE_FALLBACK), Slugify(leftId, MERGE_FALLBACK),
                   Slugify(rightId, MERGE_FALLBACK);
    SlugifyIsSlug(leftName + "-" + rightName, MERGE_FALLBACK);
    SlugifyIsSlug(leftId, MERGE_FALLBACK);
    SlugifyIsSlug(rightId, MERGE_FALLBACK);
    assert a + "--" + b + "--" + c == a + "--" + (b + "--" + c);
    DecodeStep(a, b + "--" + c);
    DecodeStep(b, c);
    DecodeLast(c);
  }

  lemma ScopeNameDecodes(verb: string, skillId: string)
    requires IsSlug(verb)
    ensures Decode(verb + "--" + Slugify(skillId, PROMOTE_FALLBACK)) == [verb, Slugify(skillId, PROMOTE_FALLBACK)]
  {
    SlugifyIsSlug(skillId, PROMOTE_FALLBACK);
    DecodeStep(verb, Slugify(skillId, PROMOTE_FALLBACK));
    DecodeLast(Slugify(skillId, PROMOTE_FALLBACK));
  }

  /** Two merge proposals share a directory exactly when all three slugs agree. */
  lemma MergeNamesCollideIffSlugsAgree(n: string, m: string, i: string, j: string, n': string, m': string, i': string, j': string)
    ensures MergeDirectoryName(n, m, i, j) == MergeDirectoryName(n', m', i', j') <==>
      && Slugify(n + "-" + m, MERGE_FALLBACK) == Slugify(n' + "-" + m', MERGE_FALLBACK)
      && Slugify(i, MERGE_FALLBACK) == Slugify(i', MERGE_FALLBACK)
      && Slugify(j, MERGE_FALLBACK) == Slugify(j', MERGE_FALLBACK)
  {
    var d, e := Decode(MergeDirectoryName(n, m, i, j)), Decode(MergeDirectoryName(n', m', i', j'));
    MergeNameDecodes(n, m, i, j);
    MergeNameDecodes(n', m', i', j');
    assert d == e ==> d[0] == e[0] && d[1] == e[1] && d[2] == e[2];
  }

  lemma VerbsAreSlugs()
    ensures IsSlug("promote") && IsSlug("demote")
  {
  }

  /** A promotion and a demotion never share a directory. */
  lemma PromotionIsNotDemotion(a: string, b: string)
    ensures PromotionDirectoryName(a) != DemotionDirectoryName(b)
  {
    VerbsAreSlugs();
    ScopeNameDecodes("promote", a);
    ScopeNameDecodes("demote", b);
    var p, d := Decode(PromotionDirectoryName(a)), Decode(DemotionDirectoryName(b));
    assert p[0][0] == 'p' && d[0][0] == 'd';
  }

  /** Neither ever shares one with a merge. */
  lemma ScopeNameIsNotMerge(a: string, leftName: string, rightName: string, leftId: string, rightId: string)
    ensures PromotionDirectoryName(a) != MergeDirectoryName(leftName, rightName, leftId, rightId)
    ensures DemotionDirectoryName(a) != MergeDirectoryName(leftName, rightName, leftId, rightId)
  {
    VerbsAreSlugs();
    ScopeNameDecodes("promote", a);
    ScopeNameDecodes("demote", a);
    MergeNameDecodes(leftName, rightName, leftId, rightId);
    assert |Decode(MergeDirectoryName(leftName, rightName, leftId, rightId))| == 3;
  }

  // ---- What a directory name tells about the ids ----

  lemma SlugTracesIffSlug(id: string, fallback: string)
    requires IsSlug(fallback)
    ensures Slugify(id, fallback) == id <==> IsSlug(id)
  {
    SlugifyIsSlug(id, fallback);
    if IsSlug(id) {
      SlugIsFixed(id, fallback);
    }
  }

  /** The id can be read back from a promotion's directory name exactly when it is a slug already. */
  lemma PromotionTracesIffSlug(skillId: string)
    ensures Decode(PromotionDirectoryName(skillId)) == ["promote", skillId] <==> IsSlug(skillId)
  {
    VerbsAreSlugs();
    ScopeNameDecodes("promote", skillId);
    SlugTracesIffSlug(skillId, PROMOTE_FALLBACK);
    assert ["promote", Slugify(skillId, PROMOTE_FALLBACK)] == ["promote", skillId]
      <==> Slugify(skillId, PROMOTE_FALLBACK) == skillId by {
      assert ["promote", skillId][1] == skillId;
    }
  }

  lemma DemotionTracesIffSlug(skillId: string)
    ensures Decode(DemotionDirectoryName(skillId)) == ["demote", skillId] <==> IsSlug(skillId)
  {
    VerbsAreSlugs();
    ScopeNameDecodes("demote", skillId);
    SlugTracesIffSlug(skillId, PROMOTE_FALLBACK);
    assert ["demote", Slugify(skillId, PROMOTE_FALLBACK)] == ["demote", skillId]
      <==> Slugify(skillId, PROMOTE_FALLBACK) == skillId by {
      assert ["demote", skillId][1] == skillId;
    }
  }

  /** The same for each of the two ids in a merge's directory name. */
  lemma MergeTracesIffSlugs(leftName: string, rightName: string, leftId: string, rightId: string)
    ensures var parts := Decode(MergeDirectoryName(leftName, rightName, leftId, rightId));
      && |parts| == 3
      && (parts[1] == leftId <==> IsSlug(leftId))
      && (parts[2] == rightId <==> IsSlug(rightId))
  {
    MergeNameDecodes(leftName, rightName, leftId, rightId);
    SlugTracesIffSlug(leftId, MERGE_FALLBACK);
    SlugTracesIffSlug(rightId, MERGE_FALLBACK);
  }

  /** An id's runs of ASCII letters and digits, lower-cased. */
  function Runs(value: string): seq<string> {
    Select(NonEmpty(), Split('-', Normalize(value)))
  }

  /** The words a slug is made of: the runs, or those of the fallback when there are none. */
  function Words(value: string, fallback: string): seq<string> {
    if Runs(value) == [] then Runs(fallback) else Runs(value)
  }

  lemma RunsAreSegments(value: string)
    ensures forall run :: run in Runs(value) ==> IsSegment(run)
  {
    SplitSegments(Normalize(value));
    SelectMembers(NonEmpty(), Split('-', Normalize(value)));
  }

  /** The runs of a slug are its pieces. */
  lemma RunsOfSlug(s: string)
    requires IsSlug(s)
    ensures Runs(s) == Split('-', s)
  {
    assert Normalize(s) == s;
    SlugHasNoEmptySegment(s);
    assert forall piece :: piece in Split('-', s) ==> NonEmpty()(piece);
    SelectAll(NonEmpty(), Split('-', s));
  }

  lemma RunsJoinToSlug(value: string, fallback: string)
    requires Runs(value) != []
    ensures Slugify(value, fallback) == Join('-', Runs(value)) && Clear('-', Runs(value))
  {
    RunsAreSegments(value);
    JoinIsSlug(Runs(value));
    forall run | run in Runs(value) ensures '-' !in run {
      assert IsSegment(run);
    }
  }

  /** A slug is its words, joined; so it determines them. */
  lemma SlugSplitsIntoWords(value: string, fallback: string)
    requires IsSlug(fallback)
    ensures Split('-', Slugify(value, fallback)) == Words(value, fallback)
  {
    if Runs(value) == [] {
      assert Slugify(value, fallback) == fallback;
      RunsOfSlug(fallback);
    } else {
      RunsJoinToSlug(value, fallback);
      SplitUndoesJoin('-', Runs(value));
    }
  }

  /**
   Two promotions share a directory exactly when their ids have the same runs of letters
   and digits, whatever their case and whatever stands between; an id without any counts
   as the fallback.
   */
  lemma PromotionsCollideIffWordsAgree(a: string, b: string)
    ensures PromotionDirectoryName(a) == PromotionDirectoryName(b) <==>
      Words(a, PROMOTE_FALLBACK) == Words(b, PROMOTE_FALLBACK)
  {
    VerbsAreSlugs();
    ScopeNameDecodes("promote", a);
    ScopeNameDecodes("promote", b);
    var p, q := Decode(PromotionDirectoryName(a)), Decode(PromotionDirectoryName(b));
    assert p == q ==> p[1] == q[1];
    SlugSplitsIntoWords(a, PROMOTE_FALLBACK);
    SlugSplitsIntoWords(b, PROMOTE_FALLBACK);
    JoinUndoesSplit('-', Slugify(a, PROMOTE_FALLBACK));
    JoinUndoesSplit('-', Slugify(b, PROMOTE_FALLBACK));
  }

  /** Ids themselves are not recoverable: different ids can have the same slug. */
  lemma DifferentIdsMayShareADirectory()
    ensures PromotionDirectoryName("a_b") == PromotionDirectoryName("a-b")
  {
    assert Normalize("a_b") == Normalize("a-b");
  }
}
