/** Paths, content hashes and the four lifecycle file names (crates/domain/src/lifecycle_files.rs). */
module SkillFiles {
  import opened Wrappers

  /** An absolute path as its components. */
  datatype Path = Path(parts: seq<string>)

  const HASH_LENGTH := 64

  /** The hexadecimal digest of a file's content. */
  datatype Hash = Hash(hex: string)

  /** A file as a snapshot records it. */
  datatype Stamp = Stamp(path: Path, hash: Hash)

  predicate ComponentsWellFormed(path: Path) {
    forall c :: c in path.parts ==> '/' !in c
  }

  /** Components hold no slash and digests have their fixed length, as on any file system. */
  predicate WellFormed(stamp: Stamp) {
    ComponentsWellFormed(stamp.path) && |stamp.hash.hex| == HASH_LENGTH
  }

  const ACTIVE_FILE_NAME := "SKILL.md"
  const PENDING_FILE_NAME := "SKILL.md.pending"
  const REJECTED_FILE_NAME := "SKILL.md.rejected"
  const RETIRED_FILE_NAME := "SKILL.md.retired"

  function Parent(path: Path): Option<Path> {
    if path.parts == [] then None else Some(Path(path.parts[..|path.parts| - 1]))
  }

  function AsciiLower(c: char): char {
    if 'A' <= c <= 'Z' then c - 'A' + 'a' else c
  }

  predicate EqIgnoreAsciiCase(a: string, b: string) {
    |a| == |b| && forall i :: 0 <= i < |a| ==> AsciiLower(a[i]) == AsciiLower(b[i])
  }

  predicate HasLifecycleFileName(path: Path, name: string) {
    path.parts != [] && EqIgnoreAsciiCase(path.parts[|path.parts| - 1], name)
  }

  predicate IsActive(path: Path) { HasLifecycleFileName(path, ACTIVE_FILE_NAME) }

  predicate IsPending(path: Path) { HasLifecycleFileName(path, PENDING_FILE_NAME) }

  predicate IsRejected(path: Path) { HasLifecycleFileName(path, REJECTED_FILE_NAME) }

  predicate IsRetired(path: Path) { HasLifecycleFileName(path, RETIRED_FILE_NAME) }

  /** No path plays two lifecycle roles, whatever the case of its letters. */
  lemma RolesAreDisjoint(path: Path)
    ensures !(IsActive(path) && (IsPending(path) || IsRejected(path) || IsRetired(path)))
    ensures !(IsPending(path) && (IsRejected(path) || IsRetired(path)))
    ensures !(IsRejected(path) && IsRetired(path))
  {
    assert AsciiLower(PENDING_FILE_NAME[9]) == 'p' && AsciiLower(RETIRED_FILE_NAME[9]) == 'r';
  }

  /** The same letters, each in either case, and the same other characters. */
  predicate CaseVariants(a: string, b: string) {
    && |a| == |b|
    && forall i :: 0 <= i < |a| ==>
         || a[i] == b[i]
         || ('a' <= a[i] <= 'z' && b[i] as int == a[i] as int - 32)
         || ('A' <= a[i] <= 'Z' && b[i] as int == a[i] as int + 32)
  }

  lemma EqualIffCaseVariants(a: string, b: string)
    ensures EqIgnoreAsciiCase(a, b) <==> CaseVariants(a, b)
  {
    forall i | 0 <= i < |a| && |a| == |b|
      ensures AsciiLower(a[i]) == AsciiLower(b[i]) <==>
        || a[i] == b[i]
        || ('a' <= a[i] <= 'z' && b[i] as int == a[i] as int - 32)
        || ('A' <= a[i] <= 'Z' && b[i] as int == a[i] as int + 32)
    {
    }
  }

  /** A file's role is told by its name, in whatever case it is written, and by nothing else. */
  lemma RoleIsCaseVariantOfName(directory: Path, file: string)
    ensures var path := Path(directory.parts + [file]);
      && (IsActive(path) <==> CaseVariants(file, "SKILL.md"))
      && (IsPending(path) <==> CaseVariants(file, "SKILL.md.pending"))
      && (IsRejected(path) <==> CaseVariants(file, "SKILL.md.rejected"))
      && (IsRetired(path) <==> CaseVariants(file, "SKILL.md.retired"))
      && Parent(path) == Some(directory)
  {
    EqualIffCaseVariants(file, "SKILL.md");
    EqualIffCaseVariants(file, "SKILL.md.pending");
    EqualIffCaseVariants(file, "SKILL.md.rejected");
    EqualIffCaseVariants(file, "SKILL.md.retired");
  }

  predicate StartsWith(path: Path, root: Path) {
    root.parts <= path.parts
  }

  function Display(path: Path): string {
    DisplayParts(path.parts)
  }

  function DisplayParts(parts: seq<string>): string {
    if parts == [] then "" else "/" + parts[0] + DisplayParts(parts[1..])
  }

  /** The length of the leading run without a slash. */
  function HeadLength(s: string): (n: nat)
    ensures n <= |s|
    ensures forall i :: 0 <= i < n ==> s[i] != '/'
    ensures n < |s| ==> s[n] == '/'
  {
    if s == "" || s[0] == '/' then 0 else 1 + HeadLength(s[1..])
  }

  lemma {:induction false} HeadOfComponent(c: string, rest: string)
    requires '/' !in c && (rest == "" || rest[0] == '/')
    ensures HeadLength(c + rest) == |c|
  {
    var n := HeadLength(c + rest);
    assert forall i :: 0 <= i < |c| ==> (c + rest)[i] == c[i];
    assert rest != "" ==> (c + rest)[|c|] == rest[0];
  }

  /** A displayed path names one path only. */
  lemma {:induction false} DisplayInjective(p: seq<string>, q: seq<string>)
    requires ComponentsWellFormed(Path(p)) && ComponentsWellFormed(Path(q)) && DisplayParts(p) == DisplayParts(q)
    ensures p == q
  {
    if p != [] && q != [] {
      var restP, restQ := DisplayParts(p[1..]), DisplayParts(q[1..]);
      assert DisplayParts(p)[1..] == p[0] + restP && DisplayParts(q)[1..] == q[0] + restQ;
      HeadOfComponent(p[0], restP);
      HeadOfComponent(q[0], restQ);
      assert (p[0] + restP)[..|p[0]|] == p[0] && (q[0] + restQ)[..|q[0]|] == q[0];
      assert (p[0] + restP)[|p[0]|..] == restP && (q[0] + restQ)[|q[0]|..] == restQ;
      DisplayInjective(p[1..], q[1..]);
      assert p == [p[0]] + p[1..] && q == [q[0]] + q[1..];
    }
  }

  function IdempotencyKey(stamp: Stamp): string {
    Display(stamp.path) + ":" + stamp.hash.hex
  }

  /** A key identifies the path and the hash it was built from. */
  lemma KeyInjective(a: Stamp, b: Stamp)
    requires WellFormed(a) && WellFormed(b)
    requires IdempotencyKey(a) == IdempotencyKey(b)
    ensures a == b
  {
    var k, l := IdempotencyKey(a), IdempotencyKey(b);
    var cut := |k| - HASH_LENGTH;
    assert k[cut..] == a.hash.hex && l[cut..] == b.hash.hex;
    assert k[..cut - 1] == Display(a.path) && l[..cut - 1] == Display(b.path);
    DisplayInjective(a.path.parts, b.path.parts);
  }
}
