/**
 What `diff_skill_snapshots` reports (crates/graph-builder/src/watcher.rs): the
 changes between two snapshots, with removed files greedily matched to new ones
 of the same directory and content so that a rename is not a delete and a create.
 */
module SnapshotDiff {
  import opened Wrappers
  import opened SkillFiles
  import opened Filtering
  import opened Sorting
  import opened Scopes

  datatype ChangeKind = Created | Modified | Deleted | ApprovedRename | RejectedRename | RetiredRename
  datatype ChangeSource = Direct | PendingApproval
  datatype Scope = Scope(root: Path, scopeId: string, scopeType: ScopeType)

  /** A change before its scope is looked up. */
  datatype Note = Note(stamp: Stamp, kind: ChangeKind, source: ChangeSource)

  datatype Change = Change(scopeId: string, scopeType: ScopeType, note: Note, key: string)

  // ---- Snapshots: what an ordered path-to-hash map yields when iterated ----

  ghost predicate DistinctPaths(snapshot: seq<Stamp>) {
    forall i, j :: 0 <= i < j < |snapshot| ==> snapshot[i].path != snapshot[j].path
  }

  function HashAt(snapshot: seq<Stamp>, path: Path): (r: Option<Hash>)
    ensures r.Some? ==> Stamp(path, r.value) in snapshot
    ensures r.None? ==> forall t :: t in snapshot ==> t.path != path
  {
    if snapshot == [] then None
    else
      var last := snapshot[|snapshot| - 1];
      assert snapshot == snapshot[..|snapshot| - 1] + [last];
      if last.path == path then Some(last.hash) else HashAt(snapshot[..|snapshot| - 1], path)
  }

  function NotIn(snapshot: seq<Stamp>): Stamp -> bool {
    (t: Stamp) => HashAt(snapshot, t.path).None?
  }

  function Rewrites(snapshot: seq<Stamp>): Stamp -> bool {
    (t: Stamp) => HashAt(snapshot, t.path).Some? && HashAt(snapshot, t.path).value != t.hash
  }

  function PendingRole(): Stamp -> bool { (t: Stamp) => IsPending(t.path) }

  function ActiveRole(): Stamp -> bool { (t: Stamp) => IsActive(t.path) }

  function OtherRole(): Stamp -> bool { (t: Stamp) => !IsPending(t.path) && !IsActive(t.path) }

  function ClaimantRole(): Stamp -> bool { (t: Stamp) => IsActive(t.path) || IsRejected(t.path) }

  function RetiredRole(): Stamp -> bool { (t: Stamp) => IsRetired(t.path) }

  function Removed(prev: seq<Stamp>, cur: seq<Stamp>): seq<Stamp> { Select(NotIn(cur), prev) }

  function Added(prev: seq<Stamp>, cur: seq<Stamp>): seq<Stamp> { Select(NotIn(prev), cur) }

  function Rewritten(prev: seq<Stamp>, cur: seq<Stamp>): seq<Stamp> { Select(Rewrites(prev), cur) }

  function RemovedPending(prev: seq<Stamp>, cur: seq<Stamp>): seq<Stamp> { Select(PendingRole(), Removed(prev, cur)) }

  function RemovedActive(prev: seq<Stamp>, cur: seq<Stamp>): seq<Stamp> { Select(ActiveRole(), Removed(prev, cur)) }

  function RemovedOther(prev: seq<Stamp>, cur: seq<Stamp>): seq<Stamp> { Select(OtherRole(), Removed(prev, cur)) }

  /** New files that may claim a removed pending file. */
  function Claimants(prev: seq<Stamp>, cur: seq<Stamp>): seq<Stamp> { Select(ClaimantRole(), Added(prev, cur)) }

  function NewlyRetired(prev: seq<Stamp>, cur: seq<Stamp>): seq<Stamp> { Select(RetiredRole(), Added(prev, cur)) }

  lemma RemovedMembers(prev: seq<Stamp>, cur: seq<Stamp>)
    ensures forall t :: t in Removed(prev, cur) <==> t in prev && NotIn(cur)(t)
    ensures forall t :: t in RemovedPending(prev, cur) <==> t in Removed(prev, cur) && IsPending(t.path)
    ensures forall t :: t in RemovedActive(prev, cur) <==> t in Removed(prev, cur) && IsActive(t.path)
    ensures forall t :: t in RemovedOther(prev, cur) <==>
      t in Removed(prev, cur) && !IsPending(t.path) && !IsActive(t.path)
  {
    SelectMembers(NotIn(cur), prev);
    SelectMembers(PendingRole(), Removed(prev, cur));
    SelectMembers(ActiveRole(), Removed(prev, cur));
    SelectMembers(OtherRole(), Removed(prev, cur));
  }

  // ---- Greedy matching ----

  /** Same content in the same skill directory. */
  predicate Fits(candidate: Stamp, target: Stamp) {
    candidate.hash == target.hash && Parent(candidate.path) == Parent(target.path)
  }

  /** The first candidate that fits, or the pool's length when none does. */
  function FirstFit(pool: seq<Stamp>, target: Stamp): (i: nat)
    ensures i <= |pool|
    ensures forall j :: 0 <= j < i ==> !Fits(pool[j], target)
    ensures i < |pool| ==> Fits(pool[i], target)
  {
    if pool == [] then 0
    else if Fits(pool[0], target) then 0
    else
      assert forall j :: 0 < j < |pool| ==> pool[j] == pool[1..][j - 1];
      1 + FirstFit(pool[1..], target)
  }

  function Without<T>(xs: seq<T>, i: nat): seq<T>
    requires i < |xs|
  {
    xs[..i] + xs[i + 1..]
  }

  /** A rename: the new file and the removed file it consumed. */
  datatype Pairing = Pairing(target: Stamp, source: Stamp)

  function Sources(pairs: seq<Pairing>): (r: seq<Stamp>)
    ensures |r| == |pairs| && forall k :: 0 <= k < |r| ==> r[k] == pairs[k].source
  {
    seq(|pairs|, k requires 0 <= k < |pairs| => pairs[k].source)
  }

  function Targets(pairs: seq<Pairing>): (r: seq<Stamp>)
    ensures |r| == |pairs| && forall k :: 0 <= k < |r| ==> r[k] == pairs[k].target
  {
    seq(|pairs|, k requires 0 <= k < |pairs| => pairs[k].target)
  }

  /** The state of the walk over the current snapshot. */
  datatype Scan = Scan(pending: seq<Stamp>, active: seq<Stamp>, notes: seq<Note>,
                       approvals: seq<Pairing>, retirements: seq<Pairing>)

  function DirectUnlessPending(path: Path): ChangeSource {
    if IsPending(path) then PendingApproval else Direct
  }

  /** What the walk does with one entry of the current snapshot. */
  datatype Move =
    | TakePending(candidate: nat, kind: ChangeKind)
    | TakeActive(candidate: nat)
    | OnlyNote(kind: ChangeKind)
    | Skip

  function Decide(scan: Scan, prev: seq<Stamp>, e: Stamp): (move: Move)
    ensures move.TakePending? ==> move.candidate < |scan.pending| && Fits(scan.pending[move.candidate], e)
    ensures move.TakeActive? ==> move.candidate < |scan.active| && Fits(scan.active[move.candidate], e)
    ensures move.TakePending? ==> move.kind == ApprovedRename || move.kind == RejectedRename
    ensures move.OnlyNote? ==> move.kind == Created || move.kind == Modified
  {
    match HashAt(prev, e.path)
    case None =>
      var p, a := FirstFit(scan.pending, e), FirstFit(scan.active, e);
      if IsActive(e.path) && p < |scan.pending| then TakePending(p, ApprovedRename)
      else if IsRejected(e.path) && p < |scan.pending| then TakePending(p, RejectedRename)
      else if IsRetired(e.path) && a < |scan.active| then TakeActive(a)
      else OnlyNote(Created)
    case Some(hash) =>
      if hash != e.hash then OnlyNote(Modified) else Skip
  }

  predicate Possible(scan: Scan, move: Move) {
    && (move.TakePending? ==> move.candidate < |scan.pending|)
    && (move.TakeActive? ==> move.candidate < |scan.active|)
  }

  function Apply(scan: Scan, e: Stamp, move: Move): Scan
    requires Possible(scan, move)
  {
    match move
    case TakePending(p, kind) =>
      scan.(pending := Without(scan.pending, p),
            approvals := scan.approvals + [Pairing(e, scan.pending[p])],
            notes := scan.notes + [Note(e, kind, PendingApproval)])
    case TakeActive(a) =>
      scan.(active := Without(scan.active, a),
            retirements := scan.retirements + [Pairing(e, scan.active[a])],
            notes := scan.notes + [Note(e, RetiredRename, Direct)])
    case OnlyNote(kind) =>
      scan.(notes := scan.notes + [Note(e, kind, DirectUnlessPending(e.path))])
    case Skip => scan
  }

  function Visit(scan: Scan, prev: seq<Stamp>, e: Stamp): Scan {
    Apply(scan, e, Decide(scan, prev, e))
  }

  function ScanFrom(start: Scan, prev: seq<Stamp>, cur: seq<Stamp>): Scan {
    if cur == [] then start
    else Visit(ScanFrom(start, prev, cur[..|cur| - 1]), prev, cur[|cur| - 1])
  }

  function Start(prev: seq<Stamp>, cur: seq<Stamp>): Scan {
    Scan(RemovedPending(prev, cur), RemovedActive(prev, cur), [], [], [])
  }

  function Matched(prev: seq<Stamp>, cur: seq<Stamp>): Scan {
    ScanFrom(Start(prev, cur), prev, cur)
  }

  function Deletions(stamps: seq<Stamp>, source: ChangeSource): (r: seq<Note>)
    ensures |r| == |stamps| && forall k :: 0 <= k < |r| ==> r[k] == Note(stamps[k], Deleted, source)
  {
    seq(|stamps|, k requires 0 <= k < |stamps| => Note(stamps[k], Deleted, source))
  }

  /** Every change between the snapshots, before scoping and sorting. */
  function Notes(prev: seq<Stamp>, cur: seq<Stamp>): seq<Note> {
    var m := Matched(prev, cur);
    Deletions(RemovedOther(prev, cur), Direct) + m.notes
      + Deletions(m.pending, PendingApproval) + Deletions(m.active, Direct)
  }

  // ---- Scoping and sorting ----

  /** The first scope, in the index's iteration order, whose root the path starts with. */
  function ScopeFor(order: seq<Scope>, path: Path): (r: Option<Scope>)
    ensures r.Some? ==> r.value in order && StartsWith(path, r.value.root)
    ensures r.None? ==> forall s :: s in order ==> !StartsWith(path, s.root)
  {
    if order == [] then None
    else if StartsWith(path, order[0].root) then Some(order[0])
    else ScopeFor(order[1..], path)
  }

  function Build(scope: Scope, note: Note): Change {
    Change(scope.scopeId, scope.scopeType, note, IdempotencyKey(note.stamp))
  }

  /** The change for a note, or nothing when its path lies in no scope. */
  function EmitOne(order: seq<Scope>, note: Note): seq<Change> {
    match ScopeFor(order, note.stamp.path)
    case Some(scope) => [Build(scope, note)]
    case None => []
  }

  function Emit(order: seq<Scope>, notes: seq<Note>): seq<Change> {
    if notes == [] then []
    else Emit(order, notes[..|notes| - 1]) + EmitOne(order, notes[|notes| - 1])
  }

  function ByKey(): (Change, Change) -> bool {
    (a: Change, b: Change) => TextLe(a.key, b.key)
  }

  function Diff(order: seq<Scope>, prev: seq<Stamp>, cur: seq<Stamp>): seq<Change> {
    Sort(ByKey(), Emit(order, Notes(prev, cur)))
  }

  // ---- What the walk keeps ----

  lemma WithoutCounts<T>(xs: seq<T>, i: nat)
    requires i < |xs|
    ensures multiset(Without(xs, i)) + multiset{xs[i]} == multiset(xs)
  {
    assert xs == xs[..i] + [xs[i]] + xs[i + 1..];
  }

  lemma LastOf<T>(xs: seq<T>)
    requires xs != []
    ensures xs == xs[..|xs| - 1] + [xs[|xs| - 1]]
  {
  }

  ghost predicate Conserves(scan: Scan, start: Scan) {
    && multiset(scan.pending) + multiset(Sources(scan.approvals)) == multiset(start.pending)
    && multiset(scan.active) + multiset(Sources(scan.retirements)) == multiset(start.active)
  }

  lemma ApplyConserves(scan: Scan, start: Scan, e: Stamp, move: Move)
    requires Conserves(scan, start) && Possible(scan, move)
    ensures Conserves(Apply(scan, e, move), start)
  {
    var after := Apply(scan, e, move);
    if move.TakePending? {
      WithoutCounts(scan.pending, move.candidate);
      assert Sources(after.approvals) == Sources(scan.approvals) + [scan.pending[move.candidate]];
    } else if move.TakeActive? {
      WithoutCounts(scan.active, move.candidate);
      assert Sources(after.retirements) == Sources(scan.retirements) + [scan.active[move.candidate]];
    }
  }

  /** Consumed files and files still in a pool are together the files the pool began with. */
  lemma {:induction false} PoolsAreConserved(start: Scan, prev: seq<Stamp>, cur: seq<Stamp>)
    requires start.approvals == start.retirements == []
    ensures Conserves(ScanFrom(start, prev, cur), start)
  {
    if cur == [] {
      assert Sources(start.approvals) == Sources(start.retirements) == [];
    } else {
      var before, e := ScanFrom(start, prev, cur[..|cur| - 1]), cur[|cur| - 1];
      PoolsAreConserved(start, prev, cur[..|cur| - 1]);
      ApplyConserves(before, start, e, Decide(before, prev, e));
    }
  }

  /** A note says truthfully what happened to its file. */
  ghost predicate Truthful(note: Note, prev: seq<Stamp>) {
    match HashAt(prev, note.stamp.path)
    case None =>
      || (note.kind == Created && (note.source == PendingApproval <==> IsPending(note.stamp.path)))
      || (note.kind == ApprovedRename && IsActive(note.stamp.path) && note.source == PendingApproval)
      || (note.kind == RejectedRename && IsRejected(note.stamp.path) && note.source == PendingApproval)
      || (note.kind == RetiredRename && IsRetired(note.stamp.path) && note.source == Direct)
    case Some(hash) =>
      && note.kind == Modified && hash != note.stamp.hash
      && (note.source == PendingApproval <==> IsPending(note.stamp.path))
  }

  function StampsOf(notes: seq<Note>): (r: seq<Stamp>)
    ensures |r| == |notes| && forall k :: 0 <= k < |r| ==> r[k] == notes[k].stamp
  {
    seq(|notes|, k requires 0 <= k < |notes| => notes[k].stamp)
  }

  function Touched(prev: seq<Stamp>): Stamp -> bool {
    (t: Stamp) => HashAt(prev, t.path) != Some(t.hash)
  }

  lemma NoteTouched(scan: Scan, prev: seq<Stamp>, e: Stamp)
    requires forall n :: n in scan.notes ==> Truthful(n, prev)
    ensures var after := Visit(scan, prev, e);
      && StampsOf(after.notes) == StampsOf(scan.notes) + (if Touched(prev)(e) then [e] else [])
      && forall n :: n in after.notes ==> Truthful(n, prev)
  {
    var move, after := Decide(scan, prev, e), Visit(scan, prev, e);
    if !move.Skip? {
      var n := after.notes[|scan.notes|];
      assert after.notes == scan.notes + [n] && Truthful(n, prev);
    }
  }

  /** The walk notes the added and rewritten files, in order, each once and truthfully. */
  lemma {:induction false} NotesAreTouched(start: Scan, prev: seq<Stamp>, cur: seq<Stamp>)
    requires start.notes == []
    ensures var m := ScanFrom(start, prev, cur);
      StampsOf(m.notes) == Select(Touched(prev), cur) && forall n :: n in m.notes ==> Truthful(n, prev)
  {
    if cur != [] {
      NotesAreTouched(start, prev, cur[..|cur| - 1]);
      NoteTouched(ScanFrom(start, prev, cur[..|cur| - 1]), prev, cur[|cur| - 1]);
    }
  }

  function OfPending(): Note -> bool { (n: Note) => n.kind == ApprovedRename || n.kind == RejectedRename }

  function OfActive(): Note -> bool { (n: Note) => n.kind == RetiredRename }

  ghost predicate RenamesPaired(scan: Scan) {
    && StampsOf(Select(OfPending(), scan.notes)) == Targets(scan.approvals)
    && StampsOf(Select(OfActive(), scan.notes)) == Targets(scan.retirements)
  }

  lemma StampsOfAppend(notes: seq<Note>, n: Note)
    ensures StampsOf(notes + [n]) == StampsOf(notes) + [n.stamp]
  {
  }

  lemma TargetsAppend(pairs: seq<Pairing>, p: Pairing)
    ensures Targets(pairs + [p]) == Targets(pairs) + [p.target]
  {
  }

  /** A note joins the renames of its kind. */
  lemma AppendedRename(kinds: Note -> bool, notes: seq<Note>, n: Note)
    ensures StampsOf(Select(kinds, notes + [n]))
         == if kinds(n) then StampsOf(Select(kinds, notes)) + [n.stamp] else StampsOf(Select(kinds, notes))
  {
    SelectAppend(kinds, notes, n);
    if kinds(n) {
      StampsOfAppend(Select(kinds, notes), n);
    }
  }

  lemma ApplyPairsRenames(scan: Scan, e: Stamp, move: Move)
    requires RenamesPaired(scan) && Possible(scan, move)
    requires move.TakePending? ==> move.kind == ApprovedRename || move.kind == RejectedRename
    requires move.OnlyNote? ==> move.kind == Created || move.kind == Modified
    ensures RenamesPaired(Apply(scan, e, move))
  {
    match move
    case TakePending(p, kind) =>
      var n := Note(e, kind, PendingApproval);
      assert OfPending()(n) && !OfActive()(n);
      AppendedRename(OfPending(), scan.notes, n);
      AppendedRename(OfActive(), scan.notes, n);
      TargetsAppend(scan.approvals, Pairing(e, scan.pending[p]));
    case TakeActive(a) =>
      var n := Note(e, RetiredRename, Direct);
      assert !OfPending()(n) && OfActive()(n);
      AppendedRename(OfPending(), scan.notes, n);
      AppendedRename(OfActive(), scan.notes, n);
      TargetsAppend(scan.retirements, Pairing(e, scan.active[a]));
    case OnlyNote(kind) =>
      var n := Note(e, kind, DirectUnlessPending(e.path));
      assert !OfPending()(n) && !OfActive()(n);
      AppendedRename(OfPending(), scan.notes, n);
      AppendedRename(OfActive(), scan.notes, n);
    case Skip =>
  }

  /** The rename notes are exactly the matched pairs. */
  lemma {:induction false} RenamesArePairs(start: Scan, prev: seq<Stamp>, cur: seq<Stamp>)
    requires start.notes == [] && start.approvals == start.retirements == []
    ensures RenamesPaired(ScanFrom(start, prev, cur))
  {
    if cur != [] {
      var before, e := ScanFrom(start, prev, cur[..|cur| - 1]), cur[|cur| - 1];
      RenamesArePairs(start, prev, cur[..|cur| - 1]);
      ApplyPairsRenames(before, e, Decide(before, prev, e));
    }
  }

  /** A pair joins a new file to a removed one of the same directory and content. */
  ghost predicate Sound(pair: Pairing, pool: seq<Stamp>, claimants: seq<Stamp>) {
    Fits(pair.source, pair.target) && pair.source in pool && pair.target in claimants
  }

  lemma PairsAreSound(prev: seq<Stamp>, cur: seq<Stamp>)
    ensures var m := Matched(prev, cur);
      && (forall p :: p in m.approvals ==> Sound(p, RemovedPending(prev, cur), Claimants(prev, cur)))
      && (forall p :: p in m.retirements ==> Sound(p, RemovedActive(prev, cur), NewlyRetired(prev, cur)))
  {
    var start := Start(prev, cur);
    PairsFit(start, prev, cur);
    PoolsAreConserved(start, prev, cur);
    var m := ScanFrom(start, prev, cur);
    forall p | p in m.approvals ensures p.source in start.pending {
      var k :| 0 <= k < |m.approvals| && m.approvals[k] == p;
      assert Sources(m.approvals)[k] in multiset(Sources(m.approvals));
      assert p.source in multiset(start.pending);
    }
    forall p | p in m.retirements ensures p.source in start.active {
      var k :| 0 <= k < |m.retirements| && m.retirements[k] == p;
      assert Sources(m.retirements)[k] in multiset(Sources(m.retirements));
      assert p.source in multiset(start.active);
    }
  }

  ghost predicate Fitting(pairs: seq<Pairing>, claimants: seq<Stamp>) {
    forall p :: p in pairs ==> Fits(p.source, p.target) && p.target in claimants
  }

  lemma FittingGrows(pairs: seq<Pairing>, p: Pairing, claimants: seq<Stamp>)
    requires Fitting(pairs, claimants) && Fits(p.source, p.target) && p.target in claimants
    ensures Fitting(pairs + [p], claimants)
  {
  }

  lemma FittingWidens(pairs: seq<Pairing>, few: seq<Stamp>, many: seq<Stamp>)
    requires Fitting(pairs, few) && few <= many
    ensures Fitting(pairs, many)
  {
    forall p | p in pairs ensures p.target in many {
      var k :| 0 <= k < |few| && few[k] == p.target;
      assert many[k] == few[k];
    }
  }

  /** An entry that takes a removed file is an added one of the right role. */
  lemma TakersAreAdded(scan: Scan, prev: seq<Stamp>, init: seq<Stamp>, e: Stamp)
    ensures Claimants(prev, init) <= Claimants(prev, init + [e]) && NewlyRetired(prev, init) <= NewlyRetired(prev, init + [e])
    ensures var move := Decide(scan, prev, e);
      && (move.TakePending? ==> Claimants(prev, init + [e]) == Claimants(prev, init) + [e])
      && (move.TakeActive? ==> NewlyRetired(prev, init + [e]) == NewlyRetired(prev, init) + [e])
  {
    AddedGrows(prev, init, e);
  }

  lemma VisitKeepsFitting(scan: Scan, prev: seq<Stamp>, init: seq<Stamp>, e: Stamp)
    requires Fitting(scan.approvals, Claimants(prev, init)) && Fitting(scan.retirements, NewlyRetired(prev, init))
    ensures var after := Visit(scan, prev, e);
      Fitting(after.approvals, Claimants(prev, init + [e])) && Fitting(after.retirements, NewlyRetired(prev, init + [e]))
  {
    var move, claimants, retired := Decide(scan, prev, e), Claimants(prev, init + [e]), NewlyRetired(prev, init + [e]);
    TakersAreAdded(scan, prev, init, e);
    FittingWidens(scan.approvals, Claimants(prev, init), claimants);
    FittingWidens(scan.retirements, NewlyRetired(prev, init), retired);
    if move.TakePending? {
      FittingGrows(scan.approvals, Pairing(e, scan.pending[move.candidate]), claimants);
    } else if move.TakeActive? {
      FittingGrows(scan.retirements, Pairing(e, scan.active[move.candidate]), retired);
    }
  }

  lemma {:induction false} PairsFit(start: Scan, prev: seq<Stamp>, cur: seq<Stamp>)
    requires start.approvals == start.retirements == []
    ensures var m := ScanFrom(start, prev, cur);
      Fitting(m.approvals, Claimants(prev, cur)) && Fitting(m.retirements, NewlyRetired(prev, cur))
  {
    if cur != [] {
      var init, e := cur[..|cur| - 1], cur[|cur| - 1];
      PairsFit(start, prev, init);
      LastOf(cur);
      VisitKeepsFitting(ScanFrom(start, prev, init), prev, init, e);
    }
  }

  // ---- Greedy matching is optimal ----

  function InGroup(directory: Option<Path>, hash: Hash): Stamp -> bool {
    (t: Stamp) => Parent(t.path) == directory && t.hash == hash
  }

  /** How many of the stamps lie in one directory and have one content. */
  function Tally(stamps: seq<Stamp>, directory: Option<Path>, hash: Hash): nat {
    |Select(InGroup(directory, hash), stamps)|
  }

  lemma TallyAppend(stamps: seq<Stamp>, t: Stamp, directory: Option<Path>, hash: Hash)
    ensures Tally(stamps + [t], directory, hash)
         == Tally(stamps, directory, hash) + if InGroup(directory, hash)(t) then 1 else 0
  {
    SelectAppend(InGroup(directory, hash), stamps, t);
  }

  lemma TallyWithout(stamps: seq<Stamp>, i: nat, directory: Option<Path>, hash: Hash)
    requires i < |stamps|
    ensures Tally(stamps, directory, hash)
         == Tally(Without(stamps, i), directory, hash) + if InGroup(directory, hash)(stamps[i]) then 1 else 0
  {
    var group := InGroup(directory, hash);
    assert stamps == (stamps[..i] + [stamps[i]]) + stamps[i + 1..];
    SelectConcat(group, stamps[..i] + [stamps[i]], stamps[i + 1..]);
    SelectConcat(group, stamps[..i], stamps[i + 1..]);
    TallyAppend(stamps[..i], stamps[i], directory, hash);
  }

  lemma TallyPositiveIffFits(pool: seq<Stamp>, e: Stamp)
    ensures FirstFit(pool, e) < |pool| <==> Tally(pool, Parent(e.path), e.hash) > 0
  {
    var group, i := InGroup(Parent(e.path), e.hash), FirstFit(pool, e);
    if i < |pool| {
      SelectMembers(group, pool);
      assert pool[i] in Select(group, pool);
    } else {
      forall t | t in pool ensures !group(t) {
        var j :| 0 <= j < |pool| && pool[j] == t;
        assert !Fits(pool[j], e);
      }
      SelectNone(group, pool);
    }
  }

  /** Files of one group: as many renamed as both sides hold, and the rest still in the pool. */
  predicate Balanced(left: nat, renamed: nat, pool: nat, claimants: nat) {
    left + renamed == pool && renamed == Min(pool, claimants)
  }

  /** The books for one directory and content. */
  ghost predicate AtMinimum(scan: Scan, start: Scan, claimants: nat, retired: nat,
                            directory: Option<Path>, hash: Hash)
  {
    && Balanced(Tally(scan.pending, directory, hash), Tally(Targets(scan.approvals), directory, hash),
                Tally(start.pending, directory, hash), claimants)
    && Balanced(Tally(scan.active, directory, hash), Tally(Targets(scan.retirements), directory, hash),
                Tally(start.active, directory, hash), retired)
  }

  /** A consumed file leaves its pool and its claimant joins the renamed ones, in the same group. */
  lemma ApplyTallies(scan: Scan, e: Stamp, move: Move, directory: Option<Path>, hash: Hash)
    requires Possible(scan, move)
    requires move.TakePending? ==> Fits(scan.pending[move.candidate], e)
    requires move.TakeActive? ==> Fits(scan.active[move.candidate], e)
    ensures var after, one := Apply(scan, e, move), if InGroup(directory, hash)(e) then 1 else 0;
      var p, a := if move.TakePending? then one else 0, if move.TakeActive? then one else 0;
      && Tally(scan.pending, directory, hash) == Tally(after.pending, directory, hash) + p
      && Tally(Targets(after.approvals), directory, hash) == Tally(Targets(scan.approvals), directory, hash) + p
      && Tally(scan.active, directory, hash) == Tally(after.active, directory, hash) + a
      && Tally(Targets(after.retirements), directory, hash) == Tally(Targets(scan.retirements), directory, hash) + a
  {
    var after := Apply(scan, e, move);
    if move.TakePending? {
      TallyWithout(scan.pending, move.candidate, directory, hash);
      assert Targets(after.approvals) == Targets(scan.approvals) + [e];
      TallyAppend(Targets(scan.approvals), e, directory, hash);
    } else if move.TakeActive? {
      TallyWithout(scan.active, move.candidate, directory, hash);
      assert Targets(after.retirements) == Targets(scan.retirements) + [e];
      TallyAppend(Targets(scan.retirements), e, directory, hash);
    }
  }

  /** An added file that may claim does so exactly while its group has a file left. */
  lemma DecideTakesIffLeft(scan: Scan, prev: seq<Stamp>, e: Stamp, directory: Option<Path>, hash: Hash)
    requires InGroup(directory, hash)(e)
    ensures var move, added := Decide(scan, prev, e), HashAt(prev, e.path).None?;
      && (move.TakePending? <==> added && ClaimantRole()(e) && Tally(scan.pending, directory, hash) > 0)
      && (move.TakeActive? <==> added && RetiredRole()(e) && Tally(scan.active, directory, hash) > 0)
  {
    RolesAreDisjoint(e.path);
    TallyPositiveIffFits(scan.pending, e);
    TallyPositiveIffFits(scan.active, e);
  }

  lemma VisitKeepsMinimum(scan: Scan, start: Scan, claimants: nat, retired: nat,
                          prev: seq<Stamp>, e: Stamp, directory: Option<Path>, hash: Hash)
    requires AtMinimum(scan, start, claimants, retired, directory, hash)
    ensures var added := HashAt(prev, e.path).None? && InGroup(directory, hash)(e);
      AtMinimum(Visit(scan, prev, e), start,
                claimants + (if added && ClaimantRole()(e) then 1 else 0),
                retired + (if added && RetiredRole()(e) then 1 else 0), directory, hash)
  {
    var move := Decide(scan, prev, e);
    ApplyTallies(scan, e, move, directory, hash);
    if InGroup(directory, hash)(e) {
      DecideTakesIffLeft(scan, prev, e, directory, hash);
    } else {
      assert AtMinimum(Visit(scan, prev, e), start, claimants, retired, directory, hash);
    }
  }

  /**
   For every directory and content, the greedy walk renames as many files as there
   are both removed files to consume and new files to consume them.
   */
  lemma {:induction false} GreedyReachesMinimum(start: Scan, prev: seq<Stamp>, cur: seq<Stamp>,
                                                directory: Option<Path>, hash: Hash)
    requires start.approvals == start.retirements == []
    ensures AtMinimum(ScanFrom(start, prev, cur), start,
                      Tally(Claimants(prev, cur), directory, hash),
                      Tally(NewlyRetired(prev, cur), directory, hash), directory, hash)
  {
    if cur == [] {
      assert Targets(start.approvals) == Targets(start.retirements) == [];
    } else {
      var init, e := cur[..|cur| - 1], cur[|cur| - 1];
      GreedyReachesMinimum(start, prev, init, directory, hash);
      LastOf(cur);
      GroupsGrow(prev, init, e, directory, hash);
      VisitKeepsMinimum(ScanFrom(start, prev, init), start, Tally(Claimants(prev, init), directory, hash),
                        Tally(NewlyRetired(prev, init), directory, hash), prev, e, directory, hash);
    }
  }

  lemma AddedGrows(prev: seq<Stamp>, init: seq<Stamp>, e: Stamp)
    ensures var added, claimants, retired := HashAt(prev, e.path).None?, Claimants(prev, init), NewlyRetired(prev, init);
      && Claimants(prev, init + [e]) == (if added && ClaimantRole()(e) then claimants + [e] else claimants)
      && NewlyRetired(prev, init + [e]) == (if added && RetiredRole()(e) then retired + [e] else retired)
  {
    SelectAppend(NotIn(prev), init, e);
    SelectAppend(ClaimantRole(), Added(prev, init), e);
    SelectAppend(RetiredRole(), Added(prev, init), e);
  }

  lemma GroupsGrow(prev: seq<Stamp>, init: seq<Stamp>, e: Stamp, directory: Option<Path>, hash: Hash)
    ensures var added := HashAt(prev, e.path).None? && InGroup(directory, hash)(e);
      && Tally(Claimants(prev, init + [e]), directory, hash)
           == Tally(Claimants(prev, init), directory, hash) + (if added && ClaimantRole()(e) then 1 else 0)
      && Tally(NewlyRetired(prev, init + [e]), directory, hash)
           == Tally(NewlyRetired(prev, init), directory, hash) + (if added && RetiredRole()(e) then 1 else 0)
  {
    var claimants, retired := Claimants(prev, init), NewlyRetired(prev, init);
    AddedGrows(prev, init, e);
    TallyAppend(claimants, e, directory, hash);
    TallyAppend(retired, e, directory, hash);
  }

  /** A way to pair new files with removed ones, using no file twice. */
  ghost predicate Matching(pairs: seq<Pairing>, pool: seq<Stamp>, claimants: seq<Stamp>) {
    && NoRepeats(Sources(pairs)) && NoRepeats(Targets(pairs))
    && forall p :: p in pairs ==> Sound(p, pool, claimants)
  }

  lemma {:induction false} PairsTallyAlike(pairs: seq<Pairing>, directory: Option<Path>, hash: Hash)
    requires forall p :: p in pairs ==> Fits(p.source, p.target)
    ensures Tally(Sources(pairs), directory, hash) == Tally(Targets(pairs), directory, hash)
  {
    if pairs != [] {
      var init, last := pairs[..|pairs| - 1], pairs[|pairs| - 1];
      PairsTallyAlike(init, directory, hash);
      assert Sources(pairs) == Sources(init) + [last.source] && Targets(pairs) == Targets(init) + [last.target];
      TallyAppend(Sources(init), last.source, directory, hash);
      TallyAppend(Targets(init), last.target, directory, hash);
    }
  }

  /** No matching can rename more in any directory and content than both sides hold. */
  lemma MatchingIsBounded(pairs: seq<Pairing>, pool: seq<Stamp>, claimants: seq<Stamp>,
                          directory: Option<Path>, hash: Hash)
    requires Matching(pairs, pool, claimants)
    ensures Tally(Targets(pairs), directory, hash)
         <= Min(Tally(pool, directory, hash), Tally(claimants, directory, hash))
  {
    forall t | t in Sources(pairs) ensures t in pool {
      var k :| 0 <= k < |pairs| && Sources(pairs)[k] == t;
      assert pairs[k] in pairs;
    }
    forall t | t in Targets(pairs) ensures t in claimants {
      var k :| 0 <= k < |pairs| && Targets(pairs)[k] == t;
      assert pairs[k] in pairs;
    }
    NoRepeatsWithin(Sources(pairs), pool);
    NoRepeatsWithin(Targets(pairs), claimants);
    PairsTallyAlike(pairs, directory, hash);
    SelectMonotone(InGroup(directory, hash), Sources(pairs), pool);
    SelectMonotone(InGroup(directory, hash), Targets(pairs), claimants);
  }

  // ---- Duplicate-freeness ----

  lemma {:induction false} SelectKeepsDistinctPaths(keep: Stamp -> bool, stamps: seq<Stamp>)
    requires DistinctPaths(stamps)
    ensures DistinctPaths(Select(keep, stamps))
  {
    if stamps != [] {
      var init, last := stamps[..|stamps| - 1], stamps[|stamps| - 1];
      SelectKeepsDistinctPaths(keep, init);
      SelectMembers(keep, init);
      forall t | t in Select(keep, init) ensures t.path != last.path {
        assert t in init;
      }
    }
  }

  lemma DistinctPathsNoRepeats(stamps: seq<Stamp>)
    requires DistinctPaths(stamps)
    ensures NoRepeats(stamps)
    ensures forall s, t :: s in stamps && t in stamps && s.path == t.path ==> s == t
  {
  }

  lemma NoRepeatsDistinctPaths(stamps: seq<Stamp>, whole: seq<Stamp>)
    requires NoRepeats(stamps) && DistinctPaths(whole) && forall t :: t in stamps ==> t in whole
    ensures DistinctPaths(stamps)
  {
    DistinctPathsNoRepeats(whole);
  }

  lemma PoolsAreDistinct(prev: seq<Stamp>, cur: seq<Stamp>)
    requires DistinctPaths(prev)
    ensures DistinctPaths(Removed(prev, cur))
    ensures NoRepeats(RemovedPending(prev, cur)) && NoRepeats(RemovedActive(prev, cur))
    ensures NoRepeats(RemovedOther(prev, cur))
  {
    SelectKeepsDistinctPaths(NotIn(cur), prev);
    SelectKeepsDistinctPaths(PendingRole(), Removed(prev, cur));
    SelectKeepsDistinctPaths(ActiveRole(), Removed(prev, cur));
    SelectKeepsDistinctPaths(OtherRole(), Removed(prev, cur));
    DistinctPathsNoRepeats(RemovedPending(prev, cur));
    DistinctPathsNoRepeats(RemovedActive(prev, cur));
    DistinctPathsNoRepeats(RemovedOther(prev, cur));
  }

  /** Greedy matching pairs each new file and each removed file at most once. */
  lemma GreedyIsMatching(prev: seq<Stamp>, cur: seq<Stamp>)
    requires DistinctPaths(prev) && DistinctPaths(cur)
    ensures var m := Matched(prev, cur);
      && Matching(m.approvals, RemovedPending(prev, cur), Claimants(prev, cur))
      && Matching(m.retirements, RemovedActive(prev, cur), NewlyRetired(prev, cur))
  {
    var start, m := Start(prev, cur), Matched(prev, cur);
    PairsAreSound(prev, cur);
    PoolsAreConserved(start, prev, cur);
    PoolsAreDistinct(prev, cur);
    HalvesOfNoRepeats(m.pending, Sources(m.approvals), start.pending);
    HalvesOfNoRepeats(m.active, Sources(m.retirements), start.active);
    TargetsAreDistinct(start, prev, cur);
  }

  ghost predicate TargetsWithin(scan: Scan, cur: seq<Stamp>) {
    && NoRepeats(Targets(scan.approvals)) && NoRepeats(Targets(scan.retirements))
    && (forall t :: t in Targets(scan.approvals) ==> t in cur)
    && (forall t :: t in Targets(scan.retirements) ==> t in cur)
  }

  lemma VisitTargetsWithin(scan: Scan, prev: seq<Stamp>, init: seq<Stamp>, e: Stamp)
    requires TargetsWithin(scan, init) && e !in init
    ensures TargetsWithin(Visit(scan, prev, e), init + [e])
  {
    var move, after := Decide(scan, prev, e), Visit(scan, prev, e);
    if move.TakePending? {
      assert Targets(after.approvals) == Targets(scan.approvals) + [e];
    } else if move.TakeActive? {
      assert Targets(after.retirements) == Targets(scan.retirements) + [e];
    }
  }

  lemma {:induction false} TargetsAreDistinct(start: Scan, prev: seq<Stamp>, cur: seq<Stamp>)
    requires start.approvals == start.retirements == [] && DistinctPaths(cur)
    ensures TargetsWithin(ScanFrom(start, prev, cur), cur)
  {
    if cur != [] {
      var init, e := cur[..|cur| - 1], cur[|cur| - 1];
      TargetsAreDistinct(start, prev, init);
      LastOf(cur);
      VisitTargetsWithin(ScanFrom(start, prev, init), prev, init, e);
    }
  }

  /**
   The greedy walk is optimal: in every directory and for every content no other
   matching renames more files.
   */
  lemma GreedyIsOptimal(prev: seq<Stamp>, cur: seq<Stamp>, approvals: seq<Pairing>, retirements: seq<Pairing>,
                        directory: Option<Path>, hash: Hash)
    requires DistinctPaths(prev) && DistinctPaths(cur)
    requires Matching(approvals, RemovedPending(prev, cur), Claimants(prev, cur))
    requires Matching(retirements, RemovedActive(prev, cur), NewlyRetired(prev, cur))
    ensures var m := Matched(prev, cur);
      && Tally(Targets(approvals), directory, hash) <= Tally(Targets(m.approvals), directory, hash)
      && Tally(Targets(retirements), directory, hash) <= Tally(Targets(m.retirements), directory, hash)
  {
    GreedyReachesMinimum(Start(prev, cur), prev, cur, directory, hash);
    MatchingIsBounded(approvals, RemovedPending(prev, cur), Claimants(prev, cur), directory, hash);
    MatchingIsBounded(retirements, RemovedActive(prev, cur), NewlyRetired(prev, cur), directory, hash);
  }
}
