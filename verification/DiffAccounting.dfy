/**
 What a diff promises about its result: every path accounted for once, distinct
 keys in strictly ascending order, and no dependence on hash-map iteration.
 */
module DiffAccounting {
  import opened Wrappers
  import opened SkillFiles
  import opened Filtering
  import opened Sorting
  import opened SnapshotDiff
  import opened Scopes

  ghost predicate Snapshot(stamps: seq<Stamp>) {
    DistinctPaths(stamps) && forall t :: t in stamps ==> WellFormed(t)
  }

  // ---- One note per path ----

  ghost predicate Apart(a: seq<Stamp>, b: seq<Stamp>) {
    forall s, t :: s in a && t in b ==> s.path != t.path
  }

  lemma DistinctConcat(a: seq<Stamp>, b: seq<Stamp>)
    requires DistinctPaths(a) && DistinctPaths(b) && Apart(a, b)
    ensures DistinctPaths(a + b)
    ensures forall t :: t in a + b <==> t in a || t in b
  {
  }

  lemma StampsOfConcat(a: seq<Note>, b: seq<Note>)
    ensures StampsOf(a + b) == StampsOf(a) + StampsOf(b)
  {
  }

  lemma StampsOfDeletions(stamps: seq<Stamp>, source: ChangeSource)
    ensures StampsOf(Deletions(stamps, source)) == stamps
  {
  }

  /** The files the notes are about, group by group. */
  lemma NotesLayout(prev: seq<Stamp>, cur: seq<Stamp>)
    ensures var m := Matched(prev, cur);
      StampsOf(Notes(prev, cur)) == RemovedOther(prev, cur) + Select(Touched(prev), cur) + m.pending + m.active
  {
    var m := Matched(prev, cur);
    var other, pending, active :=
      Deletions(RemovedOther(prev, cur), Direct), Deletions(m.pending, PendingApproval), Deletions(m.active, Direct);
    NotesAreTouched(Start(prev, cur), prev, cur);
    StampsOfDeletions(RemovedOther(prev, cur), Direct);
    StampsOfDeletions(m.pending, PendingApproval);
    StampsOfDeletions(m.active, Direct);
    StampsOfConcat(other, m.notes);
    StampsOfConcat(other + m.notes, pending);
    StampsOfConcat(other + m.notes + pending, active);
  }

  /** Removed files still in a pool: which they are, and that they are distinct. */
  lemma Leftovers(prev: seq<Stamp>, cur: seq<Stamp>)
    requires DistinctPaths(prev)
    ensures var m := Matched(prev, cur);
      && DistinctPaths(m.pending) && DistinctPaths(m.active)
      && (forall t :: t in RemovedPending(prev, cur) <==> t in m.pending || t in Sources(m.approvals))
      && (forall t :: t in RemovedActive(prev, cur) <==> t in m.active || t in Sources(m.retirements))
      && (forall t :: t in m.pending ==> t !in Sources(m.approvals))
      && (forall t :: t in m.active ==> t !in Sources(m.retirements))
  {
    var m := Matched(prev, cur);
    PoolsAreConserved(Start(prev, cur), prev, cur);
    PoolsAreDistinct(prev, cur);
    HalvesOfNoRepeats(m.pending, Sources(m.approvals), RemovedPending(prev, cur));
    HalvesOfNoRepeats(m.active, Sources(m.retirements), RemovedActive(prev, cur));
    RemovedMembers(prev, cur);
    NoRepeatsDistinctPaths(m.pending, Removed(prev, cur));
    NoRepeatsDistinctPaths(m.active, Removed(prev, cur));
  }

  lemma NotesArePerPath(prev: seq<Stamp>, cur: seq<Stamp>)
    requires DistinctPaths(prev) && DistinctPaths(cur)
    ensures DistinctPaths(StampsOf(Notes(prev, cur)))
  {
    var m := Matched(prev, cur);
    var other, touched := RemovedOther(prev, cur), Select(Touched(prev), cur);
    NotesLayout(prev, cur);
    Leftovers(prev, cur);
    RemovedMembers(prev, cur);
    PoolsAreDistinct(prev, cur);
    SelectKeepsDistinctPaths(OtherRole(), Removed(prev, cur));
    SelectKeepsDistinctPaths(Touched(prev), cur);
    RemovedIsApart(prev, cur, other);
    RemovedIsApart(prev, cur, m.pending);
    RemovedIsApart(prev, cur, m.active);
    DistinctConcat(other, touched);
    RolesAreApart(prev, cur, m);
    DistinctConcat(other + touched, m.pending);
    DistinctConcat(other + touched + m.pending, m.active);
  }

  lemma RemovedIsApart(prev: seq<Stamp>, cur: seq<Stamp>, stamps: seq<Stamp>)
    requires forall t :: t in stamps ==> t in Removed(prev, cur)
    ensures Apart(stamps, Select(Touched(prev), cur)) && Apart(Select(Touched(prev), cur), stamps)
  {
    RemovedMembers(prev, cur);
    SelectMembers(Touched(prev), cur);
  }

  lemma RolesAreApart(prev: seq<Stamp>, cur: seq<Stamp>, m: Scan)
    requires forall t :: t in m.pending ==> t in RemovedPending(prev, cur)
    requires forall t :: t in m.active ==> t in RemovedActive(prev, cur)
    ensures Apart(RemovedOther(prev, cur), m.pending) && Apart(RemovedOther(prev, cur), m.active)
    ensures Apart(m.pending, m.active)
  {
    RemovedMembers(prev, cur);
    forall s, t | s in m.pending && t in m.active ensures s.path != t.path {
      RolesAreDisjoint(s.path);
    }
  }

  // ---- Scoping ----

  function InScope(order: seq<Scope>): Note -> bool {
    (n: Note) => ScopeFor(order, n.stamp.path).Some?
  }

  function NotesOf(changes: seq<Change>): (r: seq<Note>)
    ensures |r| == |changes| && forall k :: 0 <= k < |r| ==> r[k] == changes[k].note
  {
    seq(|changes|, k requires 0 <= k < |changes| => changes[k].note)
  }

  ghost predicate Scoped(order: seq<Scope>, change: Change) {
    var scope := ScopeFor(order, change.note.stamp.path);
    scope.Some? && change == Build(scope.value, change.note)
  }

  /** Emission drops the notes outside every scope and dresses the others, in order. */
  lemma {:induction false} EmitIsSelect(order: seq<Scope>, notes: seq<Note>)
    ensures NotesOf(Emit(order, notes)) == Select(InScope(order), notes)
    ensures forall c :: c in Emit(order, notes) ==> Scoped(order, c)
  {
    if notes != [] {
      var init, last := notes[..|notes| - 1], notes[|notes| - 1];
      EmitIsSelect(order, init);
      assert NotesOf(Emit(order, init) + EmitOne(order, last))
          == NotesOf(Emit(order, init)) + NotesOf(EmitOne(order, last));
      assert NotesOf(EmitOne(order, last)) == if InScope(order)(last) then [last] else [];
    }
  }

  lemma {:induction false} EmitConcat(order: seq<Scope>, a: seq<Note>, b: seq<Note>)
    ensures Emit(order, a + b) == Emit(order, a) + Emit(order, b)
  {
    if b == [] {
      assert a + b == a;
    } else {
      assert (a + b)[..|a + b| - 1] == a + b[..|b| - 1];
      EmitConcat(order, a, b[..|b| - 1]);
    }
  }

  /** Emitting the same notes in another order gives the same changes in another order. */
  lemma {:induction false} EmitPermutation(order: seq<Scope>, a: seq<Note>, b: seq<Note>)
    requires multiset(a) == multiset(b)
    ensures multiset(Emit(order, a)) == multiset(Emit(order, b))
  {
    if a == [] {
      assert |b| == |multiset(b)| == 0;
    } else {
      var init, last := a[..|a| - 1], a[|a| - 1];
      assert a == init + [last];
      var i := RemoveFromPermutation(init, last, b);
      var rest := b[..i] + b[i + 1..];
      EmitPermutation(order, init, rest);
      EmitConcat(order, b[..i], b[i + 1..]);
      EmitConcat(order, b[..i] + [last], b[i + 1..]);
      EmitConcat(order, b[..i], [last]);
      assert Emit(order, [last]) == EmitOne(order, last) by {
        assert [last][..0] == [];
      }
    }
  }

  // ---- Keys ----

  lemma ByKeyIsPreorder()
    ensures TotalPreorder(ByKey())
  {
    forall a: Change, b: Change ensures ByKey()(a, b) || ByKey()(b, a) {
      TextLeTotal(a.key, b.key);
    }
    forall a: Change, b: Change, c: Change | ByKey()(a, b) && ByKey()(b, c) ensures ByKey()(a, c) {
      TextLeTransitive(a.key, b.key, c.key);
    }
  }

  /** Notes are about files of the two snapshots only. */
  lemma NotesComeFromSnapshots(prev: seq<Stamp>, cur: seq<Stamp>)
    requires DistinctPaths(prev)
    ensures forall n :: n in Notes(prev, cur) ==> n.stamp in prev || n.stamp in cur
  {
    var notes := Notes(prev, cur);
    NotesLayout(prev, cur);
    Leftovers(prev, cur);
    RemovedMembers(prev, cur);
    SelectMembers(Touched(prev), cur);
    forall n | n in notes ensures n.stamp in prev || n.stamp in cur {
      var k :| 0 <= k < |notes| && notes[k] == n;
      assert StampsOf(notes)[k] in StampsOf(notes);
    }
  }

  lemma NotesAreWellFormed(prev: seq<Stamp>, cur: seq<Stamp>)
    requires Snapshot(prev) && Snapshot(cur)
    ensures forall n :: n in Notes(prev, cur) ==> WellFormed(n.stamp)
  {
    NotesComeFromSnapshots(prev, cur);
  }

  /** The notes reported are well formed, and of different paths. */
  lemma ReportedNotes(order: seq<Scope>, prev: seq<Stamp>, cur: seq<Stamp>)
    requires Snapshot(prev) && Snapshot(cur)
    ensures var reported := NotesOf(Emit(order, Notes(prev, cur)));
      DistinctPaths(StampsOf(reported)) && forall n :: n in reported ==> WellFormed(n.stamp)
  {
    var notes := Notes(prev, cur);
    NotesArePerPath(prev, cur);
    NotesAreWellFormed(prev, cur);
    EmitIsSelect(order, notes);
    SelectKeepsDistinctNotes(InScope(order), notes);
    SelectMembers(InScope(order), notes);
  }

  /** Changes with the same key are the same change, so sorting leaves no freedom. */
  lemma KeysIdentifyChanges(order: seq<Scope>, prev: seq<Stamp>, cur: seq<Stamp>)
    requires Snapshot(prev) && Snapshot(cur)
    ensures NoTies(ByKey(), Emit(order, Notes(prev, cur)))
    ensures NoRepeats(Emit(order, Notes(prev, cur)))
  {
    var changes := Emit(order, Notes(prev, cur));
    EmitIsSelect(order, Notes(prev, cur));
    ReportedNotes(order, prev, cur);
    forall i, j | 0 <= i < j < |changes| ensures changes[i].key != changes[j].key {
      assert changes[i] in changes && changes[j] in changes;
      KeysDiffer(order, changes, i, j);
    }
    DistinctKeysDoNotTie(changes);
  }

  lemma DistinctKeysDoNotTie(changes: seq<Change>)
    requires forall i, j :: 0 <= i < j < |changes| ==> changes[i].key != changes[j].key
    ensures NoTies(ByKey(), changes) && NoRepeats(changes)
  {
    forall x, y | x in changes && y in changes && ByKey()(x, y) && ByKey()(y, x) ensures x == y {
      TextLeAntisymmetric(x.key, y.key);
      var i :| 0 <= i < |changes| && changes[i] == x;
      var j :| 0 <= j < |changes| && changes[j] == y;
      assert x.key == y.key;
    }
  }

  lemma KeysDiffer(order: seq<Scope>, changes: seq<Change>, i: nat, j: nat)
    requires i < j < |changes| && Scoped(order, changes[i]) && Scoped(order, changes[j])
    requires DistinctPaths(StampsOf(NotesOf(changes))) && forall n :: n in NotesOf(changes) ==> WellFormed(n.stamp)
    ensures changes[i].key != changes[j].key
  {
    var a, b := changes[i].note, changes[j].note;
    assert NotesOf(changes)[i] == a && NotesOf(changes)[j] == b;
    assert StampsOf(NotesOf(changes))[i].path != StampsOf(NotesOf(changes))[j].path;
    if changes[i].key == changes[j].key {
      KeyInjective(a.stamp, b.stamp);
    }
  }

  lemma {:induction false} SelectKeepsDistinctNotes(keep: Note -> bool, notes: seq<Note>)
    requires DistinctPaths(StampsOf(notes))
    ensures DistinctPaths(StampsOf(Select(keep, notes)))
  {
    if notes != [] {
      var init, last := notes[..|notes| - 1], notes[|notes| - 1];
      assert StampsOf(init) == StampsOf(notes)[..|notes| - 1];
      SelectKeepsDistinctNotes(keep, init);
      SelectMembers(keep, init);
      var kept := Select(keep, init);
      forall k | 0 <= k < |kept| ensures kept[k].stamp.path != last.stamp.path {
        assert kept[k] in init;
        var i :| 0 <= i < |init| && init[i] == kept[k];
        assert StampsOf(notes)[i] == kept[k].stamp && StampsOf(notes)[|notes| - 1] == last.stamp;
      }
    }
  }

  /** Idempotency keys within one diff are strictly ascending, hence distinct. */
  lemma KeysAscendStrictly(order: seq<Scope>, prev: seq<Stamp>, cur: seq<Stamp>)
    requires Snapshot(prev) && Snapshot(cur)
    ensures var changes := Diff(order, prev, cur);
      forall i, j :: 0 <= i < j < |changes| ==>
        TextLe(changes[i].key, changes[j].key) && changes[i].key != changes[j].key
  {
    var emitted, changes := Emit(order, Notes(prev, cur)), Diff(order, prev, cur);
    KeysIdentifyChanges(order, prev, cur);
    ByKeyIsPreorder();
    SortSorts(ByKey(), emitted);
    PermutationKeepsNoRepeats(emitted, changes);
    forall i, j | 0 <= i < j < |changes|
      ensures TextLe(changes[i].key, changes[j].key) && changes[i].key != changes[j].key
    {
      assert ByKey()(changes[i], changes[j]);
      TextLeTotal(changes[j].key, changes[j].key);
      assert changes[i] in emitted && changes[j] in emitted;
    }
  }

  /** Changes pushed in any order sort to the one diff. */
  lemma AnyOrderSortsToDiff(order: seq<Scope>, prev: seq<Stamp>, cur: seq<Stamp>, pushed: seq<Change>)
    requires Snapshot(prev) && Snapshot(cur)
    requires multiset(pushed) == multiset(Emit(order, Notes(prev, cur)))
    ensures Sort(ByKey(), pushed) == Diff(order, prev, cur)
  {
    KeysIdentifyChanges(order, prev, cur);
    ByKeyIsPreorder();
    SortForgetsOrder(ByKey(), Emit(order, Notes(prev, cur)), pushed);
  }

  // ---- Scope index order ----

  /** The scopes whose root the path starts with all say the same. */
  ghost predicate Unambiguous(order: seq<Scope>, path: Path) {
    forall s, t :: s in order && t in order && StartsWith(path, s.root) && StartsWith(path, t.root) ==>
      s.scopeId == t.scopeId && s.scopeType == t.scopeType
  }

  ghost predicate SameLabel(a: Option<Scope>, b: Option<Scope>) {
    match (a, b)
    case (Some(s), Some(t)) => s.scopeId == t.scopeId && s.scopeType == t.scopeType
    case (None, None) => true
    case _ => false
  }

  /** Whatever order the index is iterated in, the path gets the same label. */
  ghost predicate StableScope(order: seq<Scope>, path: Path) {
    forall other :: multiset(other) == multiset(order) ==> SameLabel(ScopeFor(order, path), ScopeFor(other, path))
  }

  /** A path's scope is independent of the index's iteration order exactly when its scopes agree. */
  lemma ScopeIsStableIffUnambiguous(order: seq<Scope>, path: Path)
    ensures Unambiguous(order, path) <==> StableScope(order, path)
  {
    forall other | multiset(other) == multiset(order) && Unambiguous(order, path)
      ensures SameLabel(ScopeFor(order, path), ScopeFor(other, path))
    {
      forall s ensures s in other <==> s in order {
        assert s in multiset(other) <==> s in multiset(order);
      }
    }
    if StableScope(order, path) {
      forall s, t | s in order && t in order && StartsWith(path, s.root) && StartsWith(path, t.root)
        ensures s.scopeId == t.scopeId && s.scopeType == t.scopeType
      {
        var sFirst := MovedToFront(order, s);
        var tFirst := MovedToFront(order, t);
        assert SameLabel(ScopeFor(order, path), ScopeFor(sFirst, path));
        assert SameLabel(ScopeFor(order, path), ScopeFor(tFirst, path));
      }
    }
  }

  lemma MovedToFront(order: seq<Scope>, s: Scope) returns (moved: seq<Scope>)
    requires s in order
    ensures multiset(moved) == multiset(order) && moved != [] && moved[0] == s
  {
    var i :| 0 <= i < |order| && order[i] == s;
    moved := [s] + (order[..i] + order[i + 1..]);
    assert order == order[..i] + [s] + order[i + 1..];
  }

  lemma CoverageIgnoresOrder(order: seq<Scope>, other: seq<Scope>, path: Path)
    requires multiset(order) == multiset(other)
    ensures ScopeFor(order, path).Some? <==> ScopeFor(other, path).Some?
    ensures Unambiguous(order, path) <==> Unambiguous(other, path)
  {
    forall s ensures s in other <==> s in order {
      assert s in multiset(other) <==> s in multiset(order);
    }
  }

  function ByNoteKey(): (Note, Note) -> bool {
    (a: Note, b: Note) => TextLe(IdempotencyKey(a.stamp), IdempotencyKey(b.stamp))
  }

  ghost predicate OwnKeys(changes: seq<Change>) {
    forall c :: c in changes ==> c.key == IdempotencyKey(c.note.stamp)
  }

  lemma NotesOfCons(c: Change, changes: seq<Change>)
    ensures NotesOf([c] + changes) == [c.note] + NotesOf(changes)
  {
  }

  lemma {:induction false} InsertByNote(x: Change, changes: seq<Change>)
    requires x.key == IdempotencyKey(x.note.stamp) && OwnKeys(changes)
    ensures NotesOf(Insert(ByKey(), x, changes)) == Insert(ByNoteKey(), x.note, NotesOf(changes))
  {
    NotesOfCons(x, changes);
    if changes != [] {
      var head, tail := changes[0], changes[1..];
      assert changes == [head] + tail;
      NotesOfCons(head, tail);
      InsertByNote(x, tail);
      NotesOfCons(head, Insert(ByKey(), x, tail));
    }
  }

  /** Sorting changes by key sorts their notes by key: labels play no part. */
  lemma {:induction false} SortByNote(changes: seq<Change>)
    requires OwnKeys(changes)
    ensures NotesOf(Sort(ByKey(), changes)) == Sort(ByNoteKey(), NotesOf(changes))
  {
    if changes != [] {
      var head, tail := changes[0], changes[1..];
      SortByNote(tail);
      assert changes == [head] + tail;
      NotesOfCons(head, tail);
      SortKeepsOwnKeys(tail);
      InsertByNote(head, Sort(ByKey(), tail));
    }
  }

  lemma SortKeepsOwnKeys(changes: seq<Change>)
    requires OwnKeys(changes)
    ensures OwnKeys(Sort(ByKey(), changes))
  {
    forall c | c in Sort(ByKey(), changes) ensures c in changes {
      assert c in multiset(Sort(ByKey(), changes));
    }
  }

  /** The notes of a diff, in order, do not mention the scope index but for its coverage. */
  lemma DiffNotes(order: seq<Scope>, prev: seq<Stamp>, cur: seq<Stamp>)
    ensures NotesOf(Diff(order, prev, cur)) == Sort(ByNoteKey(), Select(InScope(order), Notes(prev, cur)))
  {
    EmitIsSelect(order, Notes(prev, cur));
    SortByNote(Emit(order, Notes(prev, cur)));
  }

  /** Iterating the index in another order can only relabel: the same notes come out, with the same keys. */
  lemma IndexOrderOnlyRelabels(order: seq<Scope>, other: seq<Scope>, prev: seq<Stamp>, cur: seq<Stamp>)
    requires multiset(order) == multiset(other)
    ensures NotesOf(Diff(order, prev, cur)) == NotesOf(Diff(other, prev, cur))
  {
    DiffNotes(order, prev, cur);
    DiffNotes(other, prev, cur);
    forall n | n in Notes(prev, cur) ensures InScope(order)(n) <==> InScope(other)(n) {
      CoverageIgnoresOrder(order, other, n.stamp.path);
    }
    SelectAgrees(InScope(order), InScope(other), Notes(prev, cur));
  }

  lemma EmittedMembers(order: seq<Scope>, notes: seq<Note>)
    ensures forall c :: c in Emit(order, notes) ==> c.note in notes && Scoped(order, c)
    ensures forall n :: n in notes && InScope(order)(n) ==> Build(ScopeFor(order, n.stamp.path).value, n) in Emit(order, notes)
  {
    var emitted := Emit(order, notes);
    EmitIsSelect(order, notes);
    SelectMembers(InScope(order), notes);
    forall c | c in emitted ensures c.note in notes {
      var k :| 0 <= k < |emitted| && emitted[k] == c;
      assert NotesOf(emitted)[k] in NotesOf(emitted);
    }
    forall n | n in notes && InScope(order)(n) ensures Build(ScopeFor(order, n.stamp.path).value, n) in emitted {
      assert n in NotesOf(emitted);
      var k :| 0 <= k < |emitted| && NotesOf(emitted)[k] == n;
      assert emitted[k] in emitted && Scoped(order, emitted[k]);
    }
  }

  /** A diff holds exactly the notes in scope, each dressed by the first scope the index yields for it. */
  lemma DiffMembers(order: seq<Scope>, prev: seq<Stamp>, cur: seq<Stamp>)
    ensures forall c :: c in Diff(order, prev, cur) ==> c.note in Notes(prev, cur) && Scoped(order, c)
    ensures forall n :: n in Notes(prev, cur) && InScope(order)(n) ==>
      Build(ScopeFor(order, n.stamp.path).value, n) in Diff(order, prev, cur)
  {
    var notes, emitted, changes := Notes(prev, cur), Emit(order, Notes(prev, cur)), Diff(order, prev, cur);
    EmittedMembers(order, notes);
    forall c ensures c in changes <==> c in emitted {
      assert c in multiset(changes) <==> c in multiset(emitted);
    }
  }

  /** Two orders dress an unambiguous note alike. */
  lemma UnambiguousIsShared(order: seq<Scope>, other: seq<Scope>, prev: seq<Stamp>, cur: seq<Stamp>, c: Change)
    requires multiset(order) == multiset(other) && c in Diff(order, prev, cur)
    requires Unambiguous(order, c.note.stamp.path)
    ensures c in Diff(other, prev, cur)
  {
    var path := c.note.stamp.path;
    DiffMembers(order, prev, cur);
    DiffMembers(other, prev, cur);
    ScopeIsStableIffUnambiguous(order, path);
    assert SameLabel(ScopeFor(order, path), ScopeFor(other, path));
  }

  /** Two scopes that disagree on a reported path give two orders that disagree on its change. */
  lemma AmbiguousIsNotShared(order: seq<Scope>, prev: seq<Stamp>, cur: seq<Stamp>, n: Note)
    returns (a: seq<Scope>, b: seq<Scope>, c: Change)
    requires n in Notes(prev, cur) && !Unambiguous(order, n.stamp.path)
    ensures multiset(a) == multiset(order) && multiset(b) == multiset(order)
    ensures c.note == n && c in Diff(b, prev, cur) && c !in Diff(a, prev, cur)
  {
    var path := n.stamp.path;
    var s, t :| s in order && t in order && StartsWith(path, s.root) && StartsWith(path, t.root)
                && !(s.scopeId == t.scopeId && s.scopeType == t.scopeType);
    a := MovedToFront(order, s);
    b := MovedToFront(order, t);
    c := Build(t, n);
    DiffMembers(a, prev, cur);
    DiffMembers(b, prev, cur);
    assert InScope(b)(n) && ScopeFor(a, path).value == s && ScopeFor(b, path).value == t;
  }

  /** The diff is the same however the index is iterated. */
  ghost predicate StableDiff(order: seq<Scope>, prev: seq<Stamp>, cur: seq<Stamp>) {
    forall other :: multiset(other) == multiset(order) ==> Diff(order, prev, cur) == Diff(other, prev, cur)
  }

  lemma {:induction false} EmitIgnoresIndexOrder(order: seq<Scope>, other: seq<Scope>, notes: seq<Note>)
    requires multiset(order) == multiset(other)
    requires forall n :: n in notes ==> Unambiguous(order, n.stamp.path)
    ensures Emit(order, notes) == Emit(other, notes)
  {
    if notes != [] {
      var path := notes[|notes| - 1].stamp.path;
      EmitIgnoresIndexOrder(order, other, notes[..|notes| - 1]);
      ScopeIsStableIffUnambiguous(order, path);
      assert SameLabel(ScopeFor(order, path), ScopeFor(other, path));
    }
  }

  /** The order in which the scope index is iterated does not matter exactly when every reported path is unambiguous. */
  lemma DiffIsStableIffUnambiguous(order: seq<Scope>, prev: seq<Stamp>, cur: seq<Stamp>)
    ensures StableDiff(order, prev, cur) <==> forall n :: n in Notes(prev, cur) ==> Unambiguous(order, n.stamp.path)
  {
    var notes := Notes(prev, cur);
    if forall n :: n in notes ==> Unambiguous(order, n.stamp.path) {
      forall other | multiset(other) == multiset(order) ensures Diff(order, prev, cur) == Diff(other, prev, cur) {
        EmitIgnoresIndexOrder(order, other, notes);
      }
    } else {
      var n :| n in notes && !Unambiguous(order, n.stamp.path);
      var a, b, c := AmbiguousIsNotShared(order, prev, cur, n);
      assert Diff(a, prev, cur) != Diff(b, prev, cur);
    }
  }

  /** A lone new file that is not pending is reported as created. */
  lemma LoneFileIsCreated(e: Stamp)
    requires !IsPending(e.path)
    ensures Notes([], [e]) == [Note(e, Created, Direct)]
  {
    var none := Scan([], [], [], [], []);
    assert Start([], [e]) == none;
    assert Decide(none, [], e) == OnlyNote(Created);
    assert [e] == [] + [e] && [e][..|[e]| - 1] == [] && ScanFrom(none, [], []) == none;
    assert Matched([], [e]) == Visit(none, [], e);
  }

  lemma EmitLone(scope: Scope, order: seq<Scope>, n: Note)
    requires order != [] && order[0] == scope && StartsWith(n.stamp.path, scope.root)
    ensures Emit(order, [n]) == [Build(scope, n)]
  {
    assert [n][..0] == [];
    assert EmitOne(order, n) == [Build(scope, n)];
    assert Emit(order, []) == [];
  }

  lemma LoneFileDiff(scope: Scope, order: seq<Scope>, e: Stamp)
    requires order != [] && order[0] == scope && StartsWith(e.path, scope.root) && !IsPending(e.path)
    ensures Diff(order, [], [e]) == [Build(scope, Note(e, Created, Direct))]
  {
    var n := Note(e, Created, Direct);
    LoneFileIsCreated(e);
    EmitLone(scope, order, n);
    SortOfOne(ByKey(), Build(scope, n));
  }

  lemma SortOfOne<T>(le: (T, T) -> bool, x: T)
    ensures Sort(le, [x]) == [x]
  {
    assert [x][1..] == [];
    assert Sort(le, []) == [];
  }

  lemma SwapKeepsMembers<T>(x: T, y: T)
    ensures multiset([x, y]) == multiset([y, x])
  {
  }

  /**
   Nested roots break this: the builder's default global root lies under its
   project root, and a new file there is labelled by whichever scope comes first.
   */
  lemma NestedRootsAreOrderDependent(project: Scope, global: Scope, e: Stamp)
    requires project.scopeType == Project && global.scopeType == Global && StartsWith(global.root, project.root)
    requires StartsWith(e.path, global.root) && !IsPending(e.path)
    ensures multiset([project, global]) == multiset([global, project])
    ensures Diff([project, global], [], [e]) != Diff([global, project], [], [e])
  {
    LoneFileDiff(project, [project, global], e);
    LoneFileDiff(global, [global, project], e);
    SwapKeepsMembers(project, global);
  }

  // ---- Every path is accounted for ----

  ghost predicate Covered(order: seq<Scope>, stamps: seq<Stamp>) {
    forall t :: t in stamps ==> ScopeFor(order, t.path).Some?
  }

  function Renames(): Note -> bool {
    (n: Note) => n.kind == ApprovedRename || n.kind == RejectedRename || n.kind == RetiredRename
  }

  /** Removed, added and rewritten files on one side; changes and consumed files on the other. */
  lemma NotesAddUp(prev: seq<Stamp>, cur: seq<Stamp>)
    ensures |Notes(prev, cur)| + |Select(Renames(), Notes(prev, cur))|
         == |Removed(prev, cur)| + |Added(prev, cur)| + |Rewritten(prev, cur)|
  {
    var start, m, notes := Start(prev, cur), Matched(prev, cur), Notes(prev, cur);
    PoolsAreConserved(start, prev, cur);
    assert |multiset(m.pending) + multiset(Sources(m.approvals))| == |multiset(start.pending)|;
    assert |multiset(m.active) + multiset(Sources(m.retirements))| == |multiset(start.active)|;
    NotesAreTouched(start, prev, cur);
    RenamesArePairs(start, prev, cur);
    assert |m.notes| == |StampsOf(m.notes)|;
    TouchedSplits(prev, cur);
    RolesSplit(Removed(prev, cur));
    RenamesSplit(m.notes);
    RenamesAmongNotes(Renames(), prev, cur);
  }

  lemma {:induction false} TouchedSplits(prev: seq<Stamp>, cur: seq<Stamp>)
    ensures |Select(Touched(prev), cur)| == |Added(prev, cur)| + |Rewritten(prev, cur)|
  {
    if cur != [] {
      TouchedSplits(prev, cur[..|cur| - 1]);
    }
  }

  lemma {:induction false} RolesSplit(stamps: seq<Stamp>)
    ensures |Select(PendingRole(), stamps)| + |Select(ActiveRole(), stamps)| + |Select(OtherRole(), stamps)| == |stamps|
  {
    if stamps != [] {
      RolesAreDisjoint(stamps[|stamps| - 1].path);
      RolesSplit(stamps[..|stamps| - 1]);
    }
  }

  lemma {:induction false} RenamesSplit(notes: seq<Note>)
    ensures |Select(Renames(), notes)| == |Select(OfPending(), notes)| + |Select(OfActive(), notes)|
  {
    if notes != [] {
      RenamesSplit(notes[..|notes| - 1]);
    }
  }

  /** What is asked of renames alone can be asked of the walk's notes. */
  lemma RenamesAmongNotes(keep: Note -> bool, prev: seq<Stamp>, cur: seq<Stamp>)
    requires forall n :: keep(n) ==> n.kind != Deleted
    ensures Select(keep, Notes(prev, cur)) == Select(keep, Matched(prev, cur).notes)
  {
    var m := Matched(prev, cur);
    var other, pending, active :=
      Deletions(RemovedOther(prev, cur), Direct), Deletions(m.pending, PendingApproval), Deletions(m.active, Direct);
    SelectNone(keep, other);
    SelectNone(keep, pending);
    SelectNone(keep, active);
    SelectConcat(keep, other, m.notes);
    SelectConcat(keep, other + m.notes, pending);
    SelectConcat(keep, other + m.notes + pending, active);
  }

  /** A removed file was renamed away. */
  ghost predicate Consumed(prev: seq<Stamp>, cur: seq<Stamp>, t: Stamp) {
    t in Sources(Matched(prev, cur).approvals) || t in Sources(Matched(prev, cur).retirements)
  }

  /** Exactly what each path's note is. */
  ghost predicate Accounted(notes: seq<Note>, prev: seq<Stamp>, cur: seq<Stamp>) {
    // an unchanged file is not reported; an added or rewritten one is, truthfully
    && (forall t :: t in cur ==>
          (HashAt(prev, t.path) != Some(t.hash) <==> exists n :: n in notes && n.stamp == t && Truthful(n, prev)))
    // a removed file is reported deleted or was consumed by a rename, never both
    && (forall t :: t in Removed(prev, cur) ==>
          (!Consumed(prev, cur, t) <==> exists n :: n in notes && n.stamp == t && n.kind == Deleted))
    // and nothing else is reported
    && (forall n :: n in notes ==>
          || (n.stamp in cur && HashAt(prev, n.stamp.path) != Some(n.stamp.hash) && Truthful(n, prev))
          || (n.stamp in Removed(prev, cur) && n.kind == Deleted && (n.source == PendingApproval <==> IsPending(n.stamp.path))))
  }

  lemma NotesAccount(prev: seq<Stamp>, cur: seq<Stamp>)
    requires DistinctPaths(prev) && DistinctPaths(cur)
    ensures Accounted(Notes(prev, cur), prev, cur)
  {
    var notes := Notes(prev, cur);
    forall t | t in cur && HashAt(prev, t.path) != Some(t.hash)
      ensures exists n :: n in notes && n.stamp == t && Truthful(n, prev)
    {
      TouchedIsNoted(prev, cur, t);
    }
    forall t | t in Removed(prev, cur)
      ensures !Consumed(prev, cur, t) <==> exists n :: n in notes && n.stamp == t && n.kind == Deleted
    {
      RemovedIsDeletedOrConsumed(prev, cur, t);
    }
    forall n | n in notes
      ensures || (n.stamp in cur && HashAt(prev, n.stamp.path) != Some(n.stamp.hash) && Truthful(n, prev))
              || (n.stamp in Removed(prev, cur) && n.kind == Deleted && (n.source == PendingApproval <==> IsPending(n.stamp.path)))
    {
      NoteIsOfItsGroup(prev, cur, n);
    }
  }

  lemma TouchedIsNoted(prev: seq<Stamp>, cur: seq<Stamp>, t: Stamp)
    requires t in cur && HashAt(prev, t.path) != Some(t.hash)
    ensures exists n :: n in Notes(prev, cur) && n.stamp == t && Truthful(n, prev)
  {
    var m := Matched(prev, cur);
    NotesAreTouched(Start(prev, cur), prev, cur);
    SelectMembers(Touched(prev), cur);
    assert t in StampsOf(m.notes);
    var k :| 0 <= k < |m.notes| && StampsOf(m.notes)[k] == t;
    assert m.notes[k] in Notes(prev, cur);
  }

  lemma WalkNoteIsTouched(prev: seq<Stamp>, cur: seq<Stamp>, n: Note)
    requires n in Matched(prev, cur).notes
    ensures n.stamp in cur && HashAt(prev, n.stamp.path) != Some(n.stamp.hash) && Truthful(n, prev)
  {
    var notes := Matched(prev, cur).notes;
    NotesAreTouched(Start(prev, cur), prev, cur);
    SelectMembers(Touched(prev), cur);
    var k :| 0 <= k < |notes| && notes[k] == n;
    assert StampsOf(notes)[k] in StampsOf(notes);
  }

  lemma NoteIsOfItsGroup(prev: seq<Stamp>, cur: seq<Stamp>, n: Note)
    requires n in Notes(prev, cur)
    ensures || (n.stamp in cur && HashAt(prev, n.stamp.path) != Some(n.stamp.hash) && Truthful(n, prev))
            || (n.stamp in Removed(prev, cur) && n.kind == Deleted && (n.source == PendingApproval <==> IsPending(n.stamp.path)))
  {
    var m := Matched(prev, cur);
    if n in m.notes {
      WalkNoteIsTouched(prev, cur, n);
    } else {
      PoolsShrink(prev, cur);
      RemovedMembers(prev, cur);
      RolesAreDisjoint(n.stamp.path);
      DeletionMember(RemovedOther(prev, cur), Direct, n);
      DeletionMember(m.pending, PendingApproval, n);
      DeletionMember(m.active, Direct, n);
    }
  }

  lemma DeletionMember(stamps: seq<Stamp>, source: ChangeSource, n: Note)
    ensures n in Deletions(stamps, source) ==> n.stamp in stamps && n.kind == Deleted && n.source == source
  {
  }

  /** What is left in a pool was there at the start. */
  lemma PoolsShrink(prev: seq<Stamp>, cur: seq<Stamp>)
    ensures var m := Matched(prev, cur);
      && (forall t :: t in m.pending ==> t in RemovedPending(prev, cur))
      && (forall t :: t in m.active ==> t in RemovedActive(prev, cur))
  {
    var m := Matched(prev, cur);
    PoolsAreConserved(Start(prev, cur), prev, cur);
    forall t | t in m.pending ensures t in RemovedPending(prev, cur) {
      assert t in multiset(m.pending) && t in multiset(RemovedPending(prev, cur));
    }
    forall t | t in m.active ensures t in RemovedActive(prev, cur) {
      assert t in multiset(m.active) && t in multiset(RemovedActive(prev, cur));
    }
  }

  /** A change comes from the approval queue exactly when its file is pending or has just left that state. */
  lemma SourceTellsApproval(order: seq<Scope>, prev: seq<Stamp>, cur: seq<Stamp>, c: Change)
    requires c in Diff(order, prev, cur)
    ensures c.note.source == PendingApproval <==>
      IsPending(c.note.stamp.path) || c.note.kind == ApprovedRename || c.note.kind == RejectedRename
  {
    DiffMembers(order, prev, cur);
    NoteIsOfItsGroup(prev, cur, c.note);
    RolesAreDisjoint(c.note.stamp.path);
  }

  /** The path's components continue those of the k-th root and of no earlier one. */
  ghost predicate FirstAbove(order: seq<Scope>, k: nat, path: Path)
    requires k < |order|
  {
    && (exists rest :: path.parts == order[k].root.parts + rest)
    && forall j, rest :: 0 <= j < k ==> path.parts != order[j].root.parts + rest
  }

  lemma {:induction false} FirstScope(order: seq<Scope>, path: Path) returns (k: nat)
    requires ScopeFor(order, path).Some?
    ensures k < |order| && FirstAbove(order, k, path) && ScopeFor(order, path).value == order[k]
  {
    if StartsWith(path, order[0].root) {
      k := 0;
      assert path.parts == order[0].root.parts + path.parts[|order[0].root.parts|..];
    } else {
      var i := FirstScope(order[1..], path);
      k := i + 1;
      forall j, rest | 0 <= j < k ensures path.parts != order[j].root.parts + rest {
        if j > 0 {
          assert order[j] == order[1..][j - 1];
        }
      }
    }
  }

  /** A change carries the first scope of the index whose root its path lies under, and the key of its file. */
  lemma ChangesAreDressed(order: seq<Scope>, prev: seq<Stamp>, cur: seq<Stamp>, c: Change)
    requires c in Diff(order, prev, cur)
    ensures exists k :: 0 <= k < |order| && FirstAbove(order, k, c.note.stamp.path)
                        && c.scopeId == order[k].scopeId && c.scopeType == order[k].scopeType
    ensures c.key == Display(c.note.stamp.path) + ":" + c.note.stamp.hash.hex
  {
    DiffMembers(order, prev, cur);
    var k := FirstScope(order, c.note.stamp.path);
  }

  lemma RemovedIsDeletedOrConsumed(prev: seq<Stamp>, cur: seq<Stamp>, t: Stamp)
    requires DistinctPaths(prev) && DistinctPaths(cur) && t in Removed(prev, cur)
    ensures !Consumed(prev, cur, t) <==> exists n :: n in Notes(prev, cur) && n.stamp == t && n.kind == Deleted
  {
    var m, notes := Matched(prev, cur), Notes(prev, cur);
    Leftovers(prev, cur);
    NotesLayout(prev, cur);
    RemovedMembers(prev, cur);
    SelectMembers(Touched(prev), cur);
    RolesAreDisjoint(t.path);
    var other, pending, active :=
      Deletions(RemovedOther(prev, cur), Direct), Deletions(m.pending, PendingApproval), Deletions(m.active, Direct);
    if t in RemovedOther(prev, cur) {
      var k :| 0 <= k < |other| && RemovedOther(prev, cur)[k] == t;
      assert other[k] in notes;
    } else if t in m.pending {
      var k :| 0 <= k < |pending| && m.pending[k] == t;
      assert pending[k] in notes;
    } else if t in m.active {
      var k :| 0 <= k < |active| && m.active[k] == t;
      assert active[k] in notes;
    } else {
      forall k | 0 <= k < |notes| ensures notes[k].stamp != t {
        assert StampsOf(notes)[k] in StampsOf(notes);
      }
    }
  }

  /**
   The accounting theorem: with every file in some scope, each path is reported at
   most once and exactly as it changed, and changes plus renames add up to the
   removed, added and rewritten files.
   */
  lemma DiffAccountsForEveryPath(order: seq<Scope>, prev: seq<Stamp>, cur: seq<Stamp>)
    requires Snapshot(prev) && Snapshot(cur) && Covered(order, prev) && Covered(order, cur)
    ensures var reported := NotesOf(Diff(order, prev, cur));
      && DistinctPaths(StampsOf(reported))
      && Accounted(reported, prev, cur)
      && |reported| + |Select(Renames(), reported)|
           == |Removed(prev, cur)| + |Added(prev, cur)| + |Rewritten(prev, cur)|
  {
    var notes, emitted, changes := Notes(prev, cur), Emit(order, Notes(prev, cur)), Diff(order, prev, cur);
    NotesAccount(prev, cur);
    EmitIsSelect(order, notes);
    NotesComeFromSnapshots(prev, cur);
    SelectAll(InScope(order), notes);
    NotesOfPermutation(emitted, changes);
    SameNotes(notes, NotesOf(changes));
    NotesArePerPath(prev, cur);
    NotesAddUp(prev, cur);
    SelectPermuted(Renames(), notes, NotesOf(changes));
    DistinctPathsPermuted(notes, NotesOf(changes));
  }

  /**
   The scopes decide completeness: the diff reports every change exactly when no
   changed file lies outside every scope, and it drops precisely the others.
   */
  lemma DiffIsCompleteIffCovered(order: seq<Scope>, prev: seq<Stamp>, cur: seq<Stamp>)
    ensures multiset(NotesOf(Diff(order, prev, cur))) == multiset(Select(InScope(order), Notes(prev, cur)))
    ensures |Diff(order, prev, cur)| == |Notes(prev, cur)| <==>
      forall n :: n in Notes(prev, cur) ==> ScopeFor(order, n.stamp.path).Some?
  {
    var notes := Notes(prev, cur);
    EmitIsSelect(order, notes);
    NotesOfPermutation(Diff(order, prev, cur), Emit(order, notes));
    SelectDropsIffSomeFails(InScope(order), notes);
    assert |Diff(order, prev, cur)| == |NotesOf(Emit(order, notes))|;
  }

  // ---- The reported renames ----

  /** Notes of some kinds about files of one directory and content. */
  function InGroupOf(kinds: Note -> bool, directory: Option<Path>, hash: Hash): Note -> bool {
    (n: Note) => kinds(n) && InGroup(directory, hash)(n.stamp)
  }

  lemma {:induction false} GroupNotesTally(kinds: Note -> bool, notes: seq<Note>, directory: Option<Path>, hash: Hash)
    ensures |Select(InGroupOf(kinds, directory, hash), notes)| == Tally(StampsOf(Select(kinds, notes)), directory, hash)
  {
    if notes != [] {
      var init, n := notes[..|notes| - 1], notes[|notes| - 1];
      assert notes == init + [n];
      GroupNotesTally(kinds, init, directory, hash);
      SelectAppend(kinds, init, n);
      SelectAppend(InGroupOf(kinds, directory, hash), init, n);
      if kinds(n) {
        StampsOfAppend(Select(kinds, init), n);
        TallyAppend(StampsOf(Select(kinds, init)), n.stamp, directory, hash);
      }
    }
  }

  /** The diff's renames of one group are those of the walk, if the group's current files lie in some scope. */
  lemma ReportedRenamesTally(order: seq<Scope>, prev: seq<Stamp>, cur: seq<Stamp>, kinds: Note -> bool,
                             directory: Option<Path>, hash: Hash)
    requires forall n :: kinds(n) ==> n.kind != Deleted
    requires forall t :: t in cur && InGroup(directory, hash)(t) ==> ScopeFor(order, t.path).Some?
    ensures |Select(InGroupOf(kinds, directory, hash), NotesOf(Diff(order, prev, cur)))|
         == Tally(StampsOf(Select(kinds, Matched(prev, cur).notes)), directory, hash)
  {
    var keep, notes, walked := InGroupOf(kinds, directory, hash), Notes(prev, cur), Matched(prev, cur).notes;
    DiffIsCompleteIffCovered(order, prev, cur);
    SelectPermuted(keep, NotesOf(Diff(order, prev, cur)), Select(InScope(order), notes));
    RenamesAmongNotes(keep, prev, cur);
    SelectMembers(keep, notes);
    SelectMembers(keep, walked);
    forall n | n in notes && keep(n) ensures InScope(order)(n) {
      assert n in Select(keep, notes);
      WalkNoteIsTouched(prev, cur, n);
    }
    SelectWithin(keep, InScope(order), notes);
    GroupNotesTally(kinds, walked, directory, hash);
  }

  /**
   The diff reports as many renames as there can be: in every directory and for every
   content whose current files lie in some scope, the approved and rejected ones number
   the smaller of the removed pending files and the new files that may claim them, and
   the retired ones the smaller of the removed active files and the new retired ones.
   */
  lemma ReportedRenamesReachMinimum(order: seq<Scope>, prev: seq<Stamp>, cur: seq<Stamp>,
                                    directory: Option<Path>, hash: Hash)
    requires forall t :: t in cur && InGroup(directory, hash)(t) ==> ScopeFor(order, t.path).Some?
    ensures var reported := NotesOf(Diff(order, prev, cur));
      && |Select(InGroupOf(OfPending(), directory, hash), reported)|
           == Min(Tally(RemovedPending(prev, cur), directory, hash), Tally(Claimants(prev, cur), directory, hash))
      && |Select(InGroupOf(OfActive(), directory, hash), reported)|
           == Min(Tally(RemovedActive(prev, cur), directory, hash), Tally(NewlyRetired(prev, cur), directory, hash))
  {
    ReportedRenamesTally(order, prev, cur, OfPending(), directory, hash);
    ReportedRenamesTally(order, prev, cur, OfActive(), directory, hash);
    RenamesArePairs(Start(prev, cur), prev, cur);
    GreedyReachesMinimum(Start(prev, cur), prev, cur, directory, hash);
  }

  lemma SameNotes(a: seq<Note>, b: seq<Note>)
    requires multiset(a) == multiset(b)
    ensures |a| == |b| && forall n :: n in a <==> n in b
  {
    assert |multiset(a)| == |multiset(b)|;
    forall n ensures n in a <==> n in b {
      assert n in multiset(a) <==> n in multiset(b);
    }
  }

  lemma {:induction false} NotesOfPermutation(a: seq<Change>, b: seq<Change>)
    requires multiset(a) == multiset(b)
    ensures multiset(NotesOf(a)) == multiset(NotesOf(b))
  {
    if a == [] {
      assert |b| == |multiset(b)| == 0;
    } else {
      var init, last := a[..|a| - 1], a[|a| - 1];
      assert a == init + [last];
      var i := RemoveFromPermutation(init, last, b);
      var rest := b[..i] + b[i + 1..];
      NotesOfPermutation(init, rest);
      var before, after := NotesOf(b[..i]), NotesOf(b[i + 1..]);
      assert NotesOf(rest) == before + after;
      assert NotesOf(b) == before + [last.note] + after;
      assert NotesOf(a) == NotesOf(init) + [last.note];
      AddsOne(before, last.note, after);
    }
  }

  lemma DistinctPathsPermuted(a: seq<Note>, b: seq<Note>)
    requires DistinctPaths(StampsOf(a)) && multiset(a) == multiset(b)
    ensures DistinctPaths(StampsOf(b))
  {
    forall i, j | 0 <= i < j < |a| ensures a[i] != a[j] {
      assert StampsOf(a)[i].path != StampsOf(a)[j].path;
    }
    PermutationKeepsNoRepeats(a, b);
    forall i, j | 0 <= i < j < |b| ensures b[i].stamp.path != b[j].stamp.path {
      assert b[i] in a && b[j] in a;
      var k :| 0 <= k < |a| && a[k] == b[i];
      var l :| 0 <= l < |a| && a[l] == b[j];
      assert StampsOf(a)[k].path == b[i].stamp.path && StampsOf(a)[l].path == b[j].stamp.path;
    }
  }
}
