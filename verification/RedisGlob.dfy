/**
 Redis glob patterns and the escaping that embeds client-supplied ids in them
 (`escape_redis_glob`, crates/mcp-server/src/suppression_state.rs).
 */
module RedisGlob {

  // ---- What Redis matches: * ? [...] and backslash ----

  predicate Special(c: char) {
    c == '*' || c == '?' || c == '[' || c == '\\'
  }

  predicate InRange(c: char, a: char, b: char) {
    a <= c <= b || b <= c <= a
  }

  /** What follows the class whose body starts at `p`; an unclosed class runs to the end. */
  function ClassRest(p: string): (rest: string)
    ensures |rest| <= |p|
    ensures rest != "" ==> |rest| < |p| && rest == p[|p| - |rest|..]
  {
    if p == "" then ""
    else if p[0] == '\\' && |p| >= 2 then ClassRest(p[2..])
    else if p[0] == ']' then p[1..]
    else if |p| >= 3 && p[1] == '-' then ClassRest(p[3..])
    else ClassRest(p[1..])
  }

  predicate ClassHas(p: string, c: char) {
    if p == "" then false
    else if p[0] == '\\' && |p| >= 2 then p[1] == c || ClassHas(p[2..], c)
    else if p[0] == ']' then false
    else if |p| >= 3 && p[1] == '-' then InRange(c, p[0], p[2]) || ClassHas(p[3..], c)
    else p[0] == c || ClassHas(p[1..], c)
  }

  /** The body of a class after its opening bracket and optional negation. */
  function ClassBody(p: string): (body: string)
    ensures |body| <= |p| && body == p[|p| - |body|..]
  {
    if p != "" && p[0] == '^' then p[1..] else p
  }

  predicate ClassAdmits(p: string, c: char) {
    ClassHas(ClassBody(p), c) != (p != "" && p[0] == '^')
  }

  predicate GlobMatch(p: string, t: string)
    decreases |p| + |t|
  {
    if p == "" then t == ""
    else if p[0] == '*' then GlobMatch(p[1..], t) || (t != "" && GlobMatch(p, t[1..]))
    else if t == "" then false
    else if p[0] == '?' then GlobMatch(p[1..], t[1..])
    else if p[0] == '[' then ClassAdmits(p[1..], t[0]) && GlobMatch(ClassRest(ClassBody(p[1..])), t[1..])
    else if p[0] == '\\' && |p| >= 2 then p[1] == t[0] && GlobMatch(p[2..], t[1..])
    else p[0] == t[0] && GlobMatch(p[1..], t[1..])
  }

  /** The entries a background delete of a pattern leaves behind. */
  function Undeleted<E>(store: map<string, E>, pattern: string): map<string, E> {
    map key | key in store && !GlobMatch(pattern, key) :: store[key]
  }

  // ---- Escaping ----

  predicate Escaped(c: char) {
    c == '*' || c == '?' || c == '[' || c == ']' || c == '\\'
  }

  function Escape(raw: string): string {
    if raw == "" then ""
    else Escape(raw[..|raw| - 1]) + (if Escaped(raw[|raw| - 1]) then ['\\', raw[|raw| - 1]] else [raw[|raw| - 1]])
  }

  /** `escape_redis_glob` */
  method EscapeRedisGlob(raw: string) returns (escaped: string)
    ensures escaped == Escape(raw)
  {
    escaped := "";
    for i := 0 to |raw|
      invariant escaped == Escape(raw[..i])
    {
      assert raw[..i + 1][..i] == raw[..i];
      if Escaped(raw[i]) {
        escaped := escaped + ['\\'];
      }
      escaped := escaped + [raw[i]];
    }
    assert raw[..|raw|] == raw;
  }

  lemma {:induction false} EscapeHead(raw: string)
    requires raw != ""
    ensures Escape(raw) == (if Escaped(raw[0]) then ['\\', raw[0]] else [raw[0]]) + Escape(raw[1..])
  {
    if |raw| > 1 {
      EscapeHead(raw[..|raw| - 1]);
      assert raw[..|raw| - 1][1..] == raw[1..][..|raw[1..]| - 1];
    }
  }

  lemma EscapedHeadThenRest(raw: string, rest: string)
    requires raw != ""
    ensures var p, after := Escape(raw) + rest, Escape(raw[1..]) + rest;
      if Escaped(raw[0]) then |p| >= 2 && p[0] == '\\' && p[1] == raw[0] && p[2..] == after
      else p != "" && p[0] == raw[0] && p[1..] == after
  {
    EscapeHead(raw);
    DropHead(if Escaped(raw[0]) then ['\\', raw[0]] else [raw[0]], Escape(raw[1..]), rest);
  }

  lemma DropHead(head: string, middle: string, rest: string)
    ensures head + middle + rest == head + (middle + rest)
    ensures (head + middle + rest)[|head|..] == middle + rest
  {
    assert head + middle + rest == head + (middle + rest);
  }

  lemma PrefixByHead(raw: string, t: string)
    requires raw != "" && t != ""
    ensures raw <= t <==> raw[0] == t[0] && raw[1..] <= t[1..]
    ensures |raw| <= |t| ==> t[1..][|raw[1..]|..] == t[|raw|..]
  {
    assert raw == [raw[0]] + raw[1..] && t == [t[0]] + t[1..];
  }

  /** An escaped string matches itself, character for character, and then hands over to what follows. */
  lemma {:induction false} EscapeIsLiteral(raw: string, rest: string, t: string)
    ensures GlobMatch(Escape(raw) + rest, t) <==> raw <= t && GlobMatch(rest, t[|raw|..])
  {
    if raw == "" {
      assert Escape(raw) + rest == rest && t[0..] == t;
    } else {
      EscapedHeadThenRest(raw, rest);
      if t != "" {
        EscapeIsLiteral(raw[1..], rest, t[1..]);
        PrefixByHead(raw, t);
        assert GlobMatch(Escape(raw) + rest, t) <==> raw[0] == t[0] && GlobMatch(Escape(raw[1..]) + rest, t[1..]);
      }
    }
  }

  /** Escaping an id leaves a pattern for that id and nothing else. */
  lemma EscapedMatchesOnlyItself(raw: string, t: string)
    ensures GlobMatch(Escape(raw), t) <==> t == raw
  {
    EscapeIsLiteral(raw, "", t);
    assert Escape(raw) + "" == Escape(raw);
  }

  // ---- Unescaped prefixes ----

  predicate Plain(raw: string) {
    forall i :: 0 <= i < |raw| ==> !Special(raw[i])
  }

  lemma {:induction false} PlainIsLiteral(raw: string, rest: string, t: string)
    requires Plain(raw)
    ensures GlobMatch(raw + rest, t) <==> raw <= t && GlobMatch(rest, t[|raw|..])
  {
    if raw == "" {
      assert raw + rest == rest && t[0..] == t;
    } else {
      assert (raw + rest)[0] == raw[0] && (raw + rest)[1..] == raw[1..] + rest;
      if t != "" {
        PlainIsLiteral(raw[1..], rest, t[1..]);
        PrefixByHead(raw, t);
        assert GlobMatch(raw + rest, t) <==> raw[0] == t[0] && GlobMatch(raw[1..] + rest, t[1..]);
      }
    }
  }

  lemma {:induction false} StarMatchesAll(t: string)
    ensures GlobMatch("*", t)
  {
    if t != "" {
      StarMatchesAll(t[1..]);
    }
  }

  /** The pattern `p*` selects exactly the keys that start with `raw`. */
  ghost predicate Selects(p: string, raw: string) {
    forall t :: GlobMatch(p + "*", t) <==> raw <= t
  }

  ghost predicate SelectsPrefix(raw: string) {
    Selects(raw, raw)
  }

  lemma PrefixSplits(a: string, b: string, t: string)
    ensures a + b <= t <==> a <= t && b <= t[|a|..]
  {
    if a + b <= t {
      assert (a + b)[..|a|] == a && (a + b)[|a|..] == b;
      assert t[..|a + b|] == a + b;
      assert t[|a|..][..|b|] == b;
    }
    if a <= t && b <= t[|a|..] {
      assert t[..|a| + |b|] == t[..|a|] + t[|a|..][..|b|];
    }
  }

  lemma HeadIsLiteral(head: string, p: string, raw: string, t: string)
    requires Plain(head)
    ensures GlobMatch(head + p + "*", t) <==> head <= t && GlobMatch(p + "*", t[|head|..])
    ensures head + raw <= t <==> head <= t && raw <= t[|head|..]
  {
    assert head + p + "*" == head + (p + "*");
    PlainIsLiteral(head, p + "*", t);
    PrefixSplits(head, raw, t);
  }

  /** A plain head in front of both changes nothing. */
  lemma PlainHeadIsNeutral(head: string, p: string, raw: string)
    requires Plain(head)
    ensures Selects(head + p, head + raw) <==> Selects(p, raw)
  {
    if Selects(head + p, head + raw) {
      forall t ensures GlobMatch(p + "*", t) <==> raw <= t {
        HeadIsLiteral(head, p, raw, head + t);
        assert (head + t)[|head|..] == t;
      }
    } else {
      var t :| !(GlobMatch(head + p + "*", t) <==> head + raw <= t);
      HeadIsLiteral(head, p, raw, t);
      assert head <= t && !(GlobMatch(p + "*", t[|head|..]) <==> raw <= t[|head|..]);
    }
  }

  lemma PatternIsExact(front: string, id: string, separator: string, key: string)
    requires Plain(front) && Plain(separator)
    ensures GlobMatch(front + Escape(id) + separator + "*", key) <==> front + id + separator <= key
  {
    assert front + Escape(id) + separator + "*" == front + (Escape(id) + (separator + "*"));
    PlainIsLiteral(front, Escape(id) + (separator + "*"), key);
    assert front + id + separator == front + (id + separator);
    PrefixSplits(front, id + separator, key);
    if front <= key {
      EscapedPatternIsExact(id, separator, key[|front|..]);
    }
  }

  lemma EscapedPatternIsExact(id: string, separator: string, key: string)
    requires Plain(separator)
    ensures GlobMatch(Escape(id) + (separator + "*"), key) <==> id + separator <= key
  {
    EscapeIsLiteral(id, separator + "*", key);
    PrefixSplits(id, separator, key);
    if id <= key {
      var rest := key[|id|..];
      PlainIsLiteral(separator, "*", rest);
      if separator <= rest {
        StarMatchesAll(rest[|separator|..]);
      }
    }
  }

  lemma PlainConcat(a: string, b: string)
    ensures Plain(a + b) <==> Plain(a) && Plain(b)
  {
    assert forall i :: 0 <= i < |b| ==> (a + b)[|a| + i] == b[i];
    assert forall i :: 0 <= i < |a| ==> (a + b)[i] == a[i];
  }

  /** The length of the shortest string a pattern can match. */
  function MinLength(p: string): nat
    decreases |p|
  {
    if p == "" then 0
    else if p[0] == '*' then MinLength(p[1..])
    else if p[0] == '[' then 1 + MinLength(ClassRest(ClassBody(p[1..])))
    else if p[0] == '\\' && |p| >= 2 then 1 + MinLength(p[2..])
    else 1 + MinLength(p[1..])
  }

  /** Whatever a pattern matches, it matches something of its minimal length. */
  lemma {:induction false} ShortestMatch(p: string, t: string) returns (u: string)
    requires GlobMatch(p, t)
    ensures GlobMatch(p, u) && |u| == MinLength(p)
    decreases |p| + |t|
  {
    if p == "" {
      u := "";
    } else if p[0] == '*' {
      if GlobMatch(p[1..], t) {
        u := ShortestMatch(p[1..], t);
      } else {
        u := ShortestMatch(p, t[1..]);
      }
    } else {
      var rest := if p[0] == '[' then ClassRest(ClassBody(p[1..]))
                  else if p[0] == '\\' && |p| >= 2 then p[2..] else p[1..];
      var v := ShortestMatch(rest, t[1..]);
      u := [t[0]] + v;
      assert u[1..] == v;
    }
  }

  /**
   The number of characters of a pattern before its last, a backslash counted with the
   one it escapes.
   */
  function Tokens(p: string): nat {
    if |p| <= 1 then 0
    else if p[0] == '\\' && |p| >= 3 then 1 + Tokens(p[2..])
    else 1 + Tokens(p[1..])
  }

  lemma {:induction false} TokensOfTail(p: string)
    requires p != ""
    ensures Tokens(p[1..]) <= Tokens(p) <= Tokens(p[1..]) + 1
  {
    if p[0] == '\\' && |p| >= 3 {
      TokensOfTail(p[1..]);
      assert p[1..][1..] == p[2..];
    }
  }

  lemma {:induction false} TokensOfEscape(id: string, tail: string)
    requires tail != ""
    ensures Tokens(Escape(id) + tail) < |id| + |tail|
  {
    if id != "" {
      EscapeHead(id);
      var p, rest := Escape(id) + tail, Escape(id[1..]) + tail;
      TokensOfEscape(id[1..], tail);
      assert if Escaped(id[0]) then p[0] == '\\' && p[2..] == rest else p[0] != '\\' && p[1..] == rest;
    } else {
      assert Escape("") + tail == tail;
      TokensOfTail(tail);
      if |tail| > 1 {
        TokensOfEscape("", tail[1..]);
        assert Escape("") + tail[1..] == tail[1..];
      }
    }
  }

  /** Escaping makes a text no longer in this count, whatever stands unescaped around it. */
  lemma {:induction false} TokensOfKey(front: string, id: string, tail: string)
    requires tail != ""
    ensures Tokens(front + Escape(id) + tail) < |front| + |id| + |tail|
  {
    var p := front + Escape(id) + tail;
    if front == "" {
      TokensOfEscape(id, tail);
      assert p == Escape(id) + tail;
    } else {
      TokensOfKey(front[1..], id, tail);
      assert p[1..] == front[1..] + Escape(id) + tail;
      TokensOfTail(p);
    }
  }

  /** A class takes at least one token, or runs to the end of the pattern. */
  lemma {:induction false} ClassTakesTokens(p: string)
    ensures ClassRest(p) == "" || Tokens(ClassRest(p)) < Tokens(p)
    decreases |p|
  {
    if |p| >= 2 {
      TokensOfTail(p);
      if p[0] == '\\' {
        ClassTakesTokens(p[2..]);
      } else if p[0] != ']' {
        if |p| >= 3 && p[1] == '-' {
          TokensOfTail(p[1..]);
          TokensOfTail(p[2..]);
          assert p[1..][1..] == p[2..] && p[2..][1..] == p[3..];
          ClassTakesTokens(p[3..]);
        } else {
          ClassTakesTokens(p[1..]);
        }
      }
    }
  }

  lemma ClassIsShort(p: string)
    ensures var rest := ClassRest(ClassBody(p)); rest == "" || Tokens(rest) < Tokens(p)
  {
    ClassTakesTokens(ClassBody(p));
    if p != "" {
      TokensOfTail(p);
    }
  }

  /** An open pattern can match something no longer than its tokens, shorter if it begins with `*` or `[`. */
  lemma {:induction false} OpenPatternIsShort(p: string)
    requires p != "" && p[|p| - 1] == '*'
    ensures MinLength(p) <= Tokens(p)
    ensures |p| >= 3 && (p[0] == '*' || p[0] == '[') ==> MinLength(p) < Tokens(p)
    decreases |p|
  {
    if |p| > 1 {
      if p[0] == '[' {
        ClassIsShort(p[1..]);
        var rest := ClassRest(ClassBody(p[1..]));
        if rest != "" {
          assert rest[|rest| - 1] == p[|p| - 1];
          OpenPatternIsShort(rest);
        }
      } else if p[0] == '\\' {
        if |p| > 2 {
          OpenPatternIsShort(p[2..]);
        }
      } else {
        OpenPatternIsShort(p[1..]);
      }
    }
  }

  lemma LoneOpenerMissesItself(p: string, t: string)
    requires |p| == 2 && |t| == 1 && p[0] == t[0] && p[1] == '*' && (p[0] == '[' || p[0] == '\\')
    ensures !GlobMatch(p, t)
  {
    if p[0] == '[' {
      var body := p[1..];
      assert ClassBody(body) == body && body[1..] == "";
      assert !ClassHas("", '[') && !ClassHas(body, '[') && !ClassAdmits(body, '[');
    }
  }

  lemma LeadingQuestionMarkFails(p: string, raw: string)
    requires p != "" && raw != "" && p[0] == raw[0] == '?'
    ensures !Selects(p, raw)
  {
    var other := "x" + raw[1..];
    if GlobMatch(p + "*", raw) {
      assert other[1..] == raw[1..];
      assert GlobMatch(p + "*", other) && !(raw <= other);
    }
  }

  /**
   A special character in front of both: the pattern does not select the text. What
   follows it in the pattern is no longer than in the text, escapes counted once.
   */
  lemma LeadingSpecialFails(p: string, raw: string)
    requires p != "" && raw != "" && p[0] == raw[0] && Special(p[0])
    requires if |p| == 1 then |raw| == 1 else Tokens((p + "*")[1..]) < |raw| && Tokens((p + "*")[2..]) < |raw| - 1
    ensures !Selects(p, raw)
  {
    var q := p + "*";
    if p[0] == '?' {
      LeadingQuestionMarkFails(p, raw);
    } else if |p| == 1 {
      if p[0] == '*' {
        StarMatchesAll("");
        assert q[1..] == "*" && GlobMatch(q, "") && !(raw <= "");
      } else {
        LoneOpenerMissesItself(q, raw);
      }
    } else if GlobMatch(q, raw) {
      OpenPatternIsShort(q);
      var u := ShortestMatch(q, raw);
      assert |u| < |raw|;
      assert GlobMatch(q, u) && !(raw <= u);
    }
  }

  lemma {:induction false} FirstSpecial(raw: string) returns (i: nat)
    requires !Plain(raw)
    ensures i < |raw| && Plain(raw[..i]) && Special(raw[i])
  {
    if Special(raw[0]) {
      i := 0;
    } else {
      assert !Plain(raw[1..]) by {
        var k :| 0 <= k < |raw| && Special(raw[k]);
        assert Special(raw[1..][k - 1]);
      }
      var j := FirstSpecial(raw[1..]);
      i := j + 1;
      assert forall k :: 0 < k < i ==> raw[k] == raw[1..][..j][k - 1];
    }
  }

  lemma PlainTextSelects(raw: string)
    requires Plain(raw)
    ensures Selects(raw, raw)
  {
    forall t ensures GlobMatch("" + "*", t) <==> "" <= t {
      StarMatchesAll(t);
      assert "" + "*" == "*";
    }
    PlainHeadIsNeutral(raw, "", "");
    assert raw + "" == raw;
  }

  /** Exactly the texts without special characters may stand unescaped in front of `*`. */
  lemma SelectsPrefixIffPlain(raw: string)
    ensures SelectsPrefix(raw) <==> Plain(raw)
  {
    if Plain(raw) {
      PlainTextSelects(raw);
    } else {
      var i := FirstSpecial(raw);
      var tail := raw[i..];
      assert raw == raw[..i] + tail;
      PlainHeadIsNeutral(raw[..i], tail, tail);
      if |tail| >= 2 {
        TokensBelowLength((tail + "*")[1..]);
        TokensBelowLength((tail + "*")[2..]);
      }
      LeadingSpecialFails(tail, tail);
    }
  }

  lemma TokensBelowLength(p: string)
    requires p != ""
    ensures Tokens(p) < |p|
  {
    TokensOfEscape("", p);
    assert Escape("") + p == p;
  }

  lemma CutAt(front: string, i: nat, kind: string, middle: string, separator: string)
    requires i < |front|
    ensures front + kind + middle + separator == front[..i] + ([front[i]] + (front[i + 1..] + kind + middle + separator))
  {
    assert front == front[..i] + [front[i]] + front[i + 1..];
  }

  lemma SpecialHeadFails(c: char, rest: string, id: string, separator: string)
    requires Special(c) && rest != ""
    ensures !Selects([c] + (rest + Escape(id) + separator), [c] + (rest + id + separator))
  {
    var p, raw := [c] + (rest + Escape(id) + separator), [c] + (rest + id + separator);
    assert (p + "*")[1..] == rest + Escape(id) + (separator + "*");
    assert (p + "*")[2..] == rest[1..] + Escape(id) + (separator + "*");
    TokensOfKey(rest, id, separator + "*");
    TokensOfKey(rest[1..], id, separator + "*");
    LeadingSpecialFails(p, raw);
  }

  lemma SpecialFrontFails(front: string, kind: string, id: string, separator: string)
    requires !Plain(front) && kind != ""
    ensures !Selects(front + kind + Escape(id) + separator, front + kind + id + separator)
  {
    var i := FirstSpecial(front);
    var c, rest := front[i], front[i + 1..] + kind;
    CutAt(front, i, kind, Escape(id), separator);
    CutAt(front, i, kind, id, separator);
    PlainHeadIsNeutral(front[..i], [c] + (rest + Escape(id) + separator), [c] + (rest + id + separator));
    SpecialHeadFails(c, rest, id, separator);
  }

  /**
   An escaped text between an unescaped front and plain text: whatever it holds, the
   pattern selects the raw prefix exactly when the front has no special character.
   */
  lemma EscapedSelectsIffFrontPlain(front: string, kind: string, id: string, separator: string)
    requires Plain(kind) && kind != "" && Plain(separator)
    ensures Selects(front + kind + Escape(id) + separator, front + kind + id + separator) <==> Plain(front)
  {
    if Plain(front) {
      forall t ensures GlobMatch(front + kind + Escape(id) + separator + "*", t) <==> front + kind + id + separator <= t {
        PlainConcat(front, kind);
        PatternIsExact(front + kind, id, separator, t);
      }
    } else {
      SpecialFrontFails(front, kind, id, separator);
    }
  }
}
