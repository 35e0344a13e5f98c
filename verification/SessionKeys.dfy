/**
 The keys of the two session stores (crates/mcp-server/src/context_cache.rs,
 suppression_state.rs) and the id check that keeps sessions apart
 (`validate_session_id`, crates/mcp-server/src/protocol.rs).
 */
module SessionKeys {
  import opened RedisGlob

  predicate IsWhitespace(c: char) {
    c == ' ' || '\t' <= c <= '\r'
  }

  function TrimStart(s: string): string {
    if s != "" && IsWhitespace(s[0]) then TrimStart(s[1..]) else s
  }

  function TrimEnd(s: string): string {
    if s != "" && IsWhitespace(s[|s| - 1]) then TrimEnd(s[..|s| - 1]) else s
  }

  function Trim(s: string): string {
    TrimEnd(TrimStart(s))
  }

  predicate IdCharacter(c: char) {
    'a' <= c <= 'z' || 'A' <= c <= 'Z' || '0' <= c <= '9' || c == '_' || c == '-'
  }

  predicate OccursAt(s: string, needle: string, i: int) {
    0 <= i <= |s| - |needle| && s[i..i + |needle|] == needle
  }

  predicate Contains(s: string, needle: string) {
    exists i | 0 <= i <= |s| :: OccursAt(s, needle, i)
  }

  /** `validate_session_id` accepts. */
  predicate ValidSessionId(id: string) {
    !Contains(id, "::") && forall i :: 0 <= i < |id| ==> IdCharacter(id[i])
  }

  /** A valid id is its own trimmed form, holds no separator and no glob character. */
  lemma ValidIdIsClean(id: string)
    requires ValidSessionId(id)
    ensures Trim(id) == id && ':' !in id && Plain(id)
  {
  }

  /** The separator test is subsumed: the character test alone already decides. */
  lemma SeparatorTestIsRedundant(id: string)
    ensures ValidSessionId(id) <==> forall i :: 0 <= i < |id| ==> IdCharacter(id[i])
  {
    if i :| OccursAt(id, "::", i) {
      assert id[i] == id[i..i + 2][0];
    }
  }

  // ---- Reading the session back out of a key ----

  function UpToColon(s: string): string {
    if s == "" || s[0] == ':' then "" else [s[0]] + UpToColon(s[1..])
  }

  lemma {:induction false} UpToColonOfId(id: string, rest: string)
    requires ':' !in id
    ensures UpToColon(id + ":" + rest) == id
  {
    if id == "" {
      assert ("" + ":" + rest)[0] == ':';
    } else {
      UpToColonOfId(id[1..], rest);
      assert (id + ":" + rest)[1..] == id[1..] + ":" + rest;
      assert id == [id[0]] + id[1..];
    }
  }

  /** The session a key belongs to, given the fixed text in front of it. */
  function OwnerAfter(prefix: string, key: string): string {
    if prefix <= key then UpToColon(key[|prefix|..]) else ""
  }

  lemma OwnerOfKey(prefix: string, id: string, rest: string)
    requires ValidSessionId(id)
    ensures OwnerAfter(prefix, prefix + id + ":" + rest) == id
  {
    ValidIdIsClean(id);
    assert (prefix + id + ":" + rest)[|prefix|..] == id + ":" + rest;
    UpToColonOfId(id, rest);
  }

  // ---- Suppression keys: "{session}::{repo}" ----

  function LocalKey(session: string, repoPath: string): string {
    Trim(session) + "::" + Trim(repoPath)
  }

  function SuppressionRedisKey(keyPrefix: string, session: string, repoPath: string): string {
    keyPrefix + "suppression:" + Trim(session) + "::" + Trim(repoPath)
  }

  function SuppressionPattern(keyPrefix: string, session: string): string {
    keyPrefix + "suppression:" + Escape(Trim(session)) + "::*"
  }

  lemma LocalKeyOwner(session: string, repoPath: string)
    requires ValidSessionId(session)
    ensures OwnerAfter("", LocalKey(session, repoPath)) == session
  {
    ValidIdIsClean(session);
    OwnerOfKey("", session, ":" + Trim(repoPath));
    assert "" + session + ":" + (":" + Trim(repoPath)) == LocalKey(session, repoPath);
  }

  /** `b` continues `a` after a separator with something that is not whitespace, or is `a`. */
  predicate Nests(a: string, b: string) {
    a + "::" <= b + "::" && (|a| >= |b| || !IsWhitespace((b + "::")[|a| + 2]))
  }

  predicate Trimmed(s: string) {
    s == "" || (!IsWhitespace(s[0]) && !IsWhitespace(s[|s| - 1]))
  }

  lemma {:induction false} TrimEndKeepsStart(s: string)
    requires s != "" ==> !IsWhitespace(s[0])
    ensures Trimmed(TrimEnd(s))
  {
    if s != "" && IsWhitespace(s[|s| - 1]) {
      TrimEndKeepsStart(s[..|s| - 1]);
    }
  }

  lemma {:induction false} TrimTrims(s: string)
    ensures Trimmed(Trim(s))
  {
    if s != "" && IsWhitespace(s[0]) {
      TrimTrims(s[1..]);
    } else {
      TrimEndKeepsStart(s);
    }
  }

  predicate Blank(s: string) {
    forall i :: 0 <= i < |s| ==> IsWhitespace(s[i])
  }

  lemma {:induction false} TrimStartCutsBlank(s: string) returns (front: string)
    ensures s == front + TrimStart(s) && Blank(front)
  {
    if s != "" && IsWhitespace(s[0]) {
      front := TrimStartCutsBlank(s[1..]);
      front := [s[0]] + front;
      assert s == [s[0]] + s[1..];
    } else {
      front := "";
    }
  }

  lemma {:induction false} TrimEndCutsBlank(s: string) returns (back: string)
    ensures s == TrimEnd(s) + back && Blank(back)
  {
    if s != "" && IsWhitespace(s[|s| - 1]) {
      back := TrimEndCutsBlank(s[..|s| - 1]);
      back := back + [s[|s| - 1]];
      assert s == s[..|s| - 1] + [s[|s| - 1]];
    } else {
      back := "";
    }
  }

  /** Trimming takes whitespace off both ends, all of it, and nothing else. */
  lemma TrimCutsBlankEnds(s: string) returns (front: string, back: string)
    ensures s == front + Trim(s) + back && Blank(front) && Blank(back) && Trimmed(Trim(s))
  {
    front := TrimStartCutsBlank(s);
    back := TrimEndCutsBlank(TrimStart(s));
    TrimTrims(s);
  }

  lemma NestedIdsCollide(s: string, t: string) returns (r: string, q: string)
    requires Nests(Trim(s), Trim(t))
    ensures LocalKey(s, r) == LocalKey(t, q)
  {
    var a, b := Trim(s), Trim(t);
    r, q := (b + "::")[|a| + 2..], "";
    assert Trimmed(r) by {
      assert r != "" ==> r[|r| - 1] == (b + "::")[|b| + 1];
    }
    assert Trim(r) == r;
    assert a + "::" + r == b + "::" == b + "::" + q;
  }

  lemma CollidingIdsNest(s: string, t: string, r: string, q: string)
    requires LocalKey(s, r) == LocalKey(t, q) && |Trim(s)| <= |Trim(t)|
    ensures Nests(Trim(s), Trim(t))
  {
    var a, b, key := Trim(s), Trim(t), LocalKey(s, r);
    assert key[..|a| + 2] == a + "::" && key[..|b| + 2] == b + "::";
    TrimTrims(r);
    if |a| < |b| {
      assert key[|a| + 2] == Trim(r)[0] && key[|a| + 2] == (b + "::")[|a| + 2];
    }
  }

  /** Without the id check, two sessions can share a record exactly when one id nests in the other. */
  lemma LocalKeysCollideIffIdsNest(s: string, t: string)
    ensures (exists r, q :: LocalKey(s, r) == LocalKey(t, q)) <==> Nests(Trim(s), Trim(t)) || Nests(Trim(t), Trim(s))
  {
    if Nests(Trim(s), Trim(t)) {
      var r, q := NestedIdsCollide(s, t);
    } else if Nests(Trim(t), Trim(s)) {
      var q, r := NestedIdsCollide(t, s);
      assert LocalKey(s, r) == LocalKey(t, q);
    } else if r, q :| LocalKey(s, r) == LocalKey(t, q) {
      if |Trim(s)| <= |Trim(t)| {
        CollidingIdsNest(s, t, r, q);
      } else {
        CollidingIdsNest(t, s, q, r);
      }
    }
  }

  /** Two ids that do. */
  lemma UncheckedIdsMayCollide()
    ensures LocalKey("a", "b::c") == LocalKey("a::b", "c")
  {
    assert Trim("a") == "a" && Trim("a::b") == "a::b" && Trim("b::c") == "b::c" && Trim("c") == "c";
  }

  /** Accepted ids share a record only when they are the same. */
  lemma ValidIdsNeverCollide(s: string, t: string)
    requires ValidSessionId(s) && ValidSessionId(t)
    ensures (exists r, q :: LocalKey(s, r) == LocalKey(t, q)) <==> s == t
  {
    LocalKeysCollideIffIdsNest(s, t);
    ValidIdIsClean(s);
    ValidIdIsClean(t);
    if Nests(s, t) {
      NestedValidIdsAgree(s, t);
    } else if Nests(t, s) {
      NestedValidIdsAgree(t, s);
    }
  }

  lemma NestedValidIdsAgree(a: string, b: string)
    requires ':' !in b && Nests(a, b)
    ensures a == b
  {
    assert (a + "::")[|a|] == (b + "::")[|a|] == ':';
    assert (b + "::")[..|a|] == (a + "::")[..|a|];
  }

  // ---- Cache keys: "{prefix}cache:{session}:{hash}:{scopes}" ----

  function CacheKey(keyPrefix: string, session: string, promptHash: string, fingerprint: string): string {
    keyPrefix + "cache:" + Trim(session) + ":" + promptHash + ":" + fingerprint
  }

  function CachePattern(keyPrefix: string, session: string): string {
    keyPrefix + "cache:" + Escape(Trim(session)) + ":*"
  }

  lemma CacheKeyOwner(keyPrefix: string, session: string, promptHash: string, fingerprint: string)
    requires ValidSessionId(session)
    ensures OwnerAfter(keyPrefix + "cache:", CacheKey(keyPrefix, session, promptHash, fingerprint)) == session
  {
    ValidIdIsClean(session);
    OwnerOfKey(keyPrefix + "cache:", session, promptHash + ":" + fingerprint);
    assert keyPrefix + "cache:" + session + ":" + (promptHash + ":" + fingerprint)
        == CacheKey(keyPrefix, session, promptHash, fingerprint);
  }

  const PROMPT_HASH_LENGTH := 16

  /** With valid ids and full-length prompt hashes, a key determines everything it was built from. */
  lemma CacheKeyInjective(keyPrefix: string, s: string, h: string, f: string, t: string, g: string, e: string)
    requires ValidSessionId(s) && ValidSessionId(t) && |h| == |g| == PROMPT_HASH_LENGTH
    requires CacheKey(keyPrefix, s, h, f) == CacheKey(keyPrefix, t, g, e)
    ensures s == t && h == g && f == e
  {
    CacheKeyOwner(keyPrefix, s, h, f);
    CacheKeyOwner(keyPrefix, t, g, e);
    ValidIdIsClean(s);
    var k, start := CacheKey(keyPrefix, s, h, f), |keyPrefix + "cache:" + s + ":"|;
    assert k[start..start + PROMPT_HASH_LENGTH] == h && k[start + PROMPT_HASH_LENGTH + 1..] == f;
    assert k[start..start + PROMPT_HASH_LENGTH] == g && k[start + PROMPT_HASH_LENGTH + 1..] == e;
  }

  /** What `prompt_hash` yields: the first sixteen hexadecimal digits of a digest. */
  predicate IsPromptHash(h: string) {
    |h| == PROMPT_HASH_LENGTH && forall i :: 0 <= i < |h| ==> '0' <= h[i] <= '9' || 'a' <= h[i] <= 'f'
  }

  /** `b` is `a`, or continues it with a colon, a prompt hash and a further colon or its end. */
  predicate Continues(a: string, b: string) {
    a == b
    || (|a| + 1 + PROMPT_HASH_LENGTH <= |b|
        && a + ":" <= b
        && IsPromptHash(b[|a| + 1..|a| + 1 + PROMPT_HASH_LENGTH])
        && (b + ":")[|a| + 1 + PROMPT_HASH_LENGTH] == ':')
  }

  /** The part of a cache key behind the configured prefix. */
  function CacheTail(a: string, h: string, f: string): string {
    a + ":" + h + ":" + f
  }

  lemma CacheKeysAgreeIffTails(keyPrefix: string, s: string, h: string, f: string, t: string, g: string, e: string)
    ensures CacheKey(keyPrefix, s, h, f) == CacheKey(keyPrefix, t, g, e) <==> CacheTail(Trim(s), h, f) == CacheTail(Trim(t), g, e)
  {
    var front := keyPrefix + "cache:";
    assert CacheKey(keyPrefix, s, h, f) == front + CacheTail(Trim(s), h, f);
    assert CacheKey(keyPrefix, t, g, e) == front + CacheTail(Trim(t), g, e);
    assert CacheKey(keyPrefix, s, h, f)[|front|..] == CacheTail(Trim(s), h, f);
    assert CacheKey(keyPrefix, t, g, e)[|front|..] == CacheTail(Trim(t), g, e);
  }

  lemma AgreeingTailsContinue(a: string, h: string, f: string, b: string, g: string, e: string)
    requires IsPromptHash(h) && |a| <= |b| && CacheTail(a, h, f) == CacheTail(b, g, e)
    ensures Continues(a, b)
  {
    var k, end := CacheTail(a, h, f), |a| + 1 + PROMPT_HASH_LENGTH;
    assert k[..|a|] == a && k[|a|] == ':' && k[|a| + 1..end] == h && k[end] == ':';
    assert k[..|b|] == b && k[|b|] == ':';
    assert forall j :: |a| < j < end ==> k[j] == h[j - |a| - 1] != ':';
    assert |b| == |a| || end <= |b|;
    if |b| == |a| {
      assert a == k[..|a|] == b;
    } else {
      assert b[|a| + 1..end] == k[|a| + 1..end];
      assert (a + ":") == k[..|a| + 1] == b[..|a| + 1];
      assert (b + ":")[end] == k[end];
    }
  }

  lemma ContinuedIdsCollide(a: string, b: string) returns (h: string, f: string, g: string)
    requires Continues(a, b)
    ensures IsPromptHash(h) && IsPromptHash(g) && CacheTail(a, h, f) == CacheTail(b, g, "")
  {
    g := "0123456789abcdef";
    if a == b {
      h, f := g, "";
    } else {
      var k, end := CacheTail(b, g, ""), |a| + 1 + PROMPT_HASH_LENGTH;
      h, f := b[|a| + 1..end], k[end + 1..];
      assert k[..|b| + 1] == b + ":";
      assert k[..|a| + 1] == b[..|a| + 1] == a + ":";
      assert k[|a| + 1..end] == h && k[end] == ':';
      assert k == k[..|a| + 1] + k[|a| + 1..end] + [k[end]] + k[end + 1..];
    }
  }

  /** Two sessions can be given one cache key. */
  ghost predicate ShareCacheKey(keyPrefix: string, s: string, t: string) {
    exists h, f, g, e :: IsPromptHash(h) && IsPromptHash(g) && CacheKey(keyPrefix, s, h, f) == CacheKey(keyPrefix, t, g, e)
  }

  /**
   Without the id check, two sessions can share a cache key exactly when one id continues
   the other with a colon and a prompt hash that ends there or at a colon.
   */
  lemma CacheKeysCollideIffIdsContinue(keyPrefix: string, s: string, t: string)
    ensures ShareCacheKey(keyPrefix, s, t) <==> Continues(Trim(s), Trim(t)) || Continues(Trim(t), Trim(s))
  {
    if Continues(Trim(s), Trim(t)) {
      var h, f, g := ContinuedIdsCollide(Trim(s), Trim(t));
      CacheKeysAgreeIffTails(keyPrefix, s, h, f, t, g, "");
    } else if Continues(Trim(t), Trim(s)) {
      var g, e, h := ContinuedIdsCollide(Trim(t), Trim(s));
      CacheKeysAgreeIffTails(keyPrefix, s, h, "", t, g, e);
    } else if ShareCacheKey(keyPrefix, s, t) {
      var h, f, g, e :| IsPromptHash(h) && IsPromptHash(g) && CacheKey(keyPrefix, s, h, f) == CacheKey(keyPrefix, t, g, e);
      CacheKeysAgreeIffTails(keyPrefix, s, h, f, t, g, e);
      if |Trim(s)| <= |Trim(t)| {
        AgreeingTailsContinue(Trim(s), h, f, Trim(t), g, e);
      } else {
        AgreeingTailsContinue(Trim(t), g, e, Trim(s), h, f);
      }
    }
  }

  // ---- The delete patterns ----

  /**
   The pattern of a cleared session selects exactly the keys that begin with its raw
   prefix, whatever characters the id holds, when the configured prefix is plain.
   */
  lemma SuppressionPatternIsExact(keyPrefix: string, session: string, key: string)
    requires Plain(keyPrefix)
    ensures GlobMatch(SuppressionPattern(keyPrefix, session), key)
      <==> keyPrefix + "suppression:" + Trim(session) + "::" <= key
  {
    PatternIsExact(keyPrefix + "suppression:", Trim(session), "::", key);
    assert keyPrefix + "suppression:" + Escape(Trim(session)) + "::" + "*" == SuppressionPattern(keyPrefix, session);
  }

  lemma CachePatternIsExact(keyPrefix: string, session: string, key: string)
    requires Plain(keyPrefix)
    ensures GlobMatch(CachePattern(keyPrefix, session), key) <==> keyPrefix + "cache:" + Trim(session) + ":" <= key
  {
    PatternIsExact(keyPrefix + "cache:", Trim(session), ":", key);
    assert keyPrefix + "cache:" + Escape(Trim(session)) + ":" + "*" == CachePattern(keyPrefix, session);
  }

  /** The delete pattern of a session selects exactly the keys with that session's raw prefix. */
  ghost predicate CachePatternExact(keyPrefix: string, session: string) {
    forall key :: GlobMatch(CachePattern(keyPrefix, session), key) <==> keyPrefix + "cache:" + Trim(session) + ":" <= key
  }

  ghost predicate SuppressionPatternExact(keyPrefix: string, session: string) {
    forall key :: GlobMatch(SuppressionPattern(keyPrefix, session), key)
             <==> keyPrefix + "suppression:" + Trim(session) + "::" <= key
  }

  /**
   The configured prefix goes into the pattern unescaped. Whatever the session id holds,
   the pattern is exact exactly when that prefix holds no special character.
   */
  lemma CachePatternIsExactIffPrefixPlain(keyPrefix: string, session: string)
    ensures CachePatternExact(keyPrefix, session) <==> Plain(keyPrefix)
  {
    EscapedSelectsIffFrontPlain(keyPrefix, "cache:", Trim(session), ":");
    var p, raw := keyPrefix + "cache:" + Escape(Trim(session)) + ":", keyPrefix + "cache:" + Trim(session) + ":";
    assert p + "*" == CachePattern(keyPrefix, session);
    assert Selects(p, raw) <==> CachePatternExact(keyPrefix, session);
  }

  /** The same for suppression records. */
  lemma SuppressionPatternIsExactIffPrefixPlain(keyPrefix: string, session: string)
    ensures SuppressionPatternExact(keyPrefix, session) <==> Plain(keyPrefix)
  {
    EscapedSelectsIffFrontPlain(keyPrefix, "suppression:", Trim(session), "::");
    var p, raw := keyPrefix + "suppression:" + Escape(Trim(session)) + "::", keyPrefix + "suppression:" + Trim(session) + "::";
    assert p + "*" == SuppressionPattern(keyPrefix, session);
    assert Selects(p, raw) <==> SuppressionPatternExact(keyPrefix, session);
  }
}
