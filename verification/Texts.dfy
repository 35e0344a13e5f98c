/** Joining and splitting texts at a separator, as `join` and `split` do. */
module Texts {

  function Join(separator: char, parts: seq<string>): string {
    if parts == [] then ""
    else if |parts| == 1 then parts[0]
    else parts[0] + [separator] + Join(separator, parts[1..])
  }

  /** At least one piece, possibly empty ones. */
  function Split(separator: char, s: string): (r: seq<string>)
    ensures r != []
  {
    if s == "" then [""]
    else
      var rest := Split(separator, s[1..]);
      if s[0] == separator then [""] + rest else [[s[0]] + rest[0]] + rest[1..]
  }

  /** No part holds the separator. */
  predicate Clear(separator: char, parts: seq<string>) {
    forall part :: part in parts ==> separator !in part
  }

  lemma {:induction false} PiecesAreClear(separator: char, s: string)
    ensures Clear(separator, Split(separator, s))
  {
    if s != "" {
      PiecesAreClear(separator, s[1..]);
      var rest := Split(separator, s[1..]);
      assert rest[0] in rest && forall x :: x in rest[1..] ==> x in rest;
    }
  }

  lemma {:induction false} SplitsAfter(separator: char, head: string, rest: string)
    requires separator !in head
    ensures Split(separator, head + [separator] + rest) == [head] + Split(separator, rest)
    ensures Split(separator, head) == [head]
  {
    if head == "" {
      assert (head + [separator] + rest)[1..] == rest;
    } else {
      SplitsAfter(separator, head[1..], rest);
      assert (head + [separator] + rest)[1..] == head[1..] + [separator] + rest;
      assert head == [head[0]] + head[1..];
    }
  }

  lemma {:induction false} SplitUndoesJoin(separator: char, parts: seq<string>)
    requires parts != [] && Clear(separator, parts)
    ensures Split(separator, Join(separator, parts)) == parts
  {
    if |parts| == 1 {
      SplitsAfter(separator, parts[0], "");
    } else {
      SplitUndoesJoin(separator, parts[1..]);
      SplitsAfter(separator, parts[0], Join(separator, parts[1..]));
    }
  }

  /** Splitting a joined list gives the list back exactly when no part holds the separator. */
  lemma SplitUndoesJoinIffClear(separator: char, parts: seq<string>)
    requires parts != []
    ensures Split(separator, Join(separator, parts)) == parts <==> Clear(separator, parts)
  {
    PiecesAreClear(separator, Join(separator, parts));
    if Clear(separator, parts) {
      SplitUndoesJoin(separator, parts);
    }
  }

  lemma {:induction false} JoinUndoesSplit(separator: char, s: string)
    ensures Join(separator, Split(separator, s)) == s
  {
    if s != "" {
      JoinUndoesSplit(separator, s[1..]);
      var rest := Split(separator, s[1..]);
      assert s == [s[0]] + s[1..];
      if s[0] == separator {
        assert ([""] + rest)[1..] == rest;
      } else {
        var split := [[s[0]] + rest[0]] + rest[1..];
        assert split[1..] == rest[1..];
      }
    }
  }
}
