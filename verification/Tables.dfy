/** The directories and files tables: rows, foreign keys, uniqueness and cascade, and what
    every interleaving of directory and file requests keeps true of them. */
module Tables {
  import opened Bytes
  import opened Lists

  datatype Uuid = Uuid(text: string)
  datatype Dir = Dir(user: Uuid, parent: Option<Uuid>, name: string)
  datatype File = File(user: Uuid, dir: Uuid, key: string, encrypted: bool, deleted: bool)

  /** `born` numbers every directory id ever inserted, in order; it is not a column. */
  datatype Db = Db(dirs: map<Uuid, Dir>, files: map<Uuid, File>, born: map<Uuid, nat>, clock: nat)

  const EMPTY := Db(map[], map[], map[], 0)

  // ---- What the schema and the service keep ----

  ghost predicate Forest(db: Db) {
    && (forall d :: d in db.born ==> db.born[d] < db.clock)
    && (forall d :: d in db.dirs ==> d in db.born)
    && (forall d :: d in db.dirs && db.dirs[d].parent.Some? ==>
          var p := db.dirs[d].parent.value;
          p in db.dirs && db.dirs[p].user == db.dirs[d].user && db.born[p] < db.born[d])
    && (forall f :: f in db.files ==> db.files[f].dir in db.dirs)
  }

  /** UNIQUE(user_id, parent_id, name): rows with a NULL parent never collide. */
  ghost predicate Unique(db: Db) {
    forall d, e :: d in db.dirs && e in db.dirs && db.dirs[d] == db.dirs[e] && db.dirs[d].parent.Some? ==> d == e
  }

  /** d is root or lies below it. */
  predicate Under(db: Db, root: Uuid, d: Uuid)
    requires Forest(db) && d in db.dirs
    decreases db.born[d]
  {
    d == root || (db.dirs[d].parent.Some? && Under(db, root, db.dirs[d].parent.value))
  }

  function Subtree(db: Db, root: Uuid): set<Uuid>
    requires Forest(db)
  {
    set d | d in db.dirs && Under(db, root, d)
  }

  // ---- Statements ----

  /** INSERT INTO directories: refused by the primary key, the foreign key or UNIQUE. */
  function InsertDir(db: Db, id: Uuid, row: Dir): Option<Db> {
    if id in db.dirs then None
    else if row.parent.Some? && row.parent.value !in db.dirs then None
    else if row.parent.Some? && row in db.dirs.Values then None
    else Some(db.(dirs := db.dirs[id := row], born := db.born[id := db.clock], clock := db.clock + 1))
  }

  /** DELETE FROM directories WHERE id = $1 AND user_id = $2, with its cascades. */
  function DeleteDir(db: Db, id: Uuid, user: Uuid): Option<Db>
    requires Forest(db)
  {
    if id in db.dirs && db.dirs[id].user == user then Some(Cascade(db, id)) else None
  }

  function Cascade(db: Db, id: Uuid): Db
    requires Forest(db)
  {
    var gone := Subtree(db, id);
    db.(dirs := map d | d in db.dirs && d !in gone :: db.dirs[d],
        files := map f | f in db.files && db.files[f].dir !in gone :: db.files[f])
  }

  function InsertFile(db: Db, id: Uuid, row: File): Option<Db> {
    if id in db.files || row.dir !in db.dirs then None else Some(db.(files := db.files[id := row]))
  }

  function SoftDeleteFile(db: Db, id: Uuid, user: Uuid): Option<Db> {
    if id in db.files && db.files[id].user == user && !db.files[id].deleted
    then Some(db.(files := db.files[id := db.files[id].(deleted := true)]))
    else None
  }

  lemma InsertDirKeeps(db: Db, id: Uuid, row: Dir)
    requires Forest(db) && Unique(db) && id !in db.born
    requires row.parent.Some? && row.parent.value in db.dirs ==> db.dirs[row.parent.value].user == row.user
    ensures var inserted := InsertDir(db, id, row);
            inserted.Some? ==> Forest(inserted.value) && Unique(inserted.value)
  {
    if InsertDir(db, id, row).Some? && row.parent.Some? {
      forall d | d in db.dirs ensures db.dirs[d] != row {
        assert db.dirs[d] in db.dirs.Values;
      }
    }
  }

  lemma CascadeKeeps(db: Db, id: Uuid)
    requires Forest(db) && Unique(db)
    ensures Forest(Cascade(db, id)) && Unique(Cascade(db, id))
  {
  }

  // ---- Interleaved requests ----

  /** `pending` holds Create requests that have read the parent and not yet inserted the row,
      `fileIds` every id a file was ever inserted under. */
  datatype State = State(db: Db, pending: map<nat, Dir>, fileIds: set<Uuid>)

  datatype Step =
    | CheckParent(request: nat, row: Dir)
    | Insert(request: nat, id: Uuid)
    | Delete(id: Uuid, user: Uuid)
    | AddFile(fileId: Uuid, file: File)
    | SoftDelete(fileId: Uuid, user: Uuid)

  /** New ids are fresh; a request that is refused changes nothing. */
  ghost predicate Enabled(s: State, step: Step) {
    match step
    case CheckParent(r, _) => r !in s.pending
    case Insert(r, id) => r in s.pending && id !in s.db.born
    case AddFile(id, _) => id !in s.fileIds
    case _ => true
  }

  ghost function Next(s: State, step: Step): State
    requires Forest(s.db) && Enabled(s, step)
  {
    match step
    case CheckParent(r, row) =>
      if row.parent.Some? && (row.parent.value !in s.db.dirs || s.db.dirs[row.parent.value].user != row.user) then s
      else s.(pending := s.pending[r := row])
    case Insert(r, id) => s.(db := Or(InsertDir(s.db, id, s.pending[r]), s.db), pending := s.pending - {r})
    case Delete(id, user) => s.(db := Or(DeleteDir(s.db, id, user), s.db))
    case AddFile(id, file) => s.(db := Or(InsertFile(s.db, id, file), s.db), fileIds := s.fileIds + {id})
    case SoftDelete(id, user) => s.(db := Or(SoftDeleteFile(s.db, id, user), s.db))
  }

  function Or<T>(o: Option<T>, default: T): T {
    if o.Some? then o.value else default
  }

  /** A checked parent may be deleted before the insert, but it cannot come back as somebody
      else's directory, because ids are not reused. */
  ghost predicate Inv(s: State) {
    && Forest(s.db) && Unique(s.db) && s.db.files.Keys <= s.fileIds
    && forall r :: r in s.pending && s.pending[r].parent.Some? ==>
         var p := s.pending[r].parent.value;
         p in s.db.born && (p in s.db.dirs ==> s.db.dirs[p].user == s.pending[r].user)
  }

  lemma NextInv(s: State, step: Step)
    requires Inv(s) && Enabled(s, step)
    ensures Inv(Next(s, step))
  {
    match step
    case Insert(r, id) => InsertDirKeeps(s.db, id, s.pending[r]);
    case Delete(id, user) => CascadeKeeps(s.db, id);
    case _ =>
  }

  const START := State(EMPTY, map[], {})

  /** Taking a step outside a forest would make every state reachable: nothing below relies
      on runs being cut there. */
  ghost predicate Run(s: State, steps: seq<Step>, t: State)
    decreases |steps|
  {
    if steps == [] then s == t
    else Enabled(s, steps[0]) && (Forest(s.db) ==> Run(Next(s, steps[0]), steps[1..], t))
  }

  ghost predicate Reachable(s: State) {
    exists steps :: Run(START, steps, s)
  }

  lemma {:induction false} RunInv(s: State, steps: seq<Step>, t: State)
    requires Inv(s) && Run(s, steps, t)
    ensures Inv(t)
    decreases |steps|
  {
    if steps != [] {
      NextInv(s, steps[0]);
      RunInv(Next(s, steps[0]), steps[1..], t);
    }
  }

  lemma ReachableInv(s: State)
    requires Reachable(s)
    ensures Inv(s)
  {
    var steps :| Run(START, steps, s);
    RunInv(START, steps, s);
  }

  // ---- What a later state still tells about an earlier one ----

  ghost predicate LaterDirs(s: Db, t: Db) {
    && (forall d :: d in s.born ==> d in t.born)
    && (forall d :: d in s.born && d in t.dirs ==> d in s.dirs && t.dirs[d] == s.dirs[d])
  }

  ghost predicate LaterFiles(s: State, t: State) {
    && s.fileIds <= t.fileIds
    && (forall f :: f in s.fileIds && f in t.db.files ==>
          f in s.db.files && t.db.files[f].(deleted := false) == s.db.files[f].(deleted := false)
          && (s.db.files[f].deleted ==> t.db.files[f].deleted))
    && (forall f :: f in s.db.files && f !in t.db.files ==> s.db.files[f].dir !in t.db.dirs)
  }

  /** Ids are not reused, so an id known before and still there has the row it had; only the
      deletion mark of a file can have been set, and a file goes only with its directory. */
  ghost predicate Later(s: State, t: State) { LaterDirs(s.db, t.db) && LaterFiles(s, t) }

  lemma LaterNext(s: State, step: Step)
    requires Inv(s) && Enabled(s, step)
    ensures Later(s, Next(s, step))
  {
    NextLaterDirs(s, step);
    NextLaterFiles(s, step);
  }

  lemma NextLaterDirs(s: State, step: Step)
    requires Inv(s) && Enabled(s, step)
    ensures LaterDirs(s.db, Next(s, step).db)
  {
  }

  lemma NextLaterFiles(s: State, step: Step)
    requires Inv(s) && Enabled(s, step)
    ensures LaterFiles(s, Next(s, step))
  {
  }

  lemma LaterTransitive(s: State, t: State, u: State)
    requires Inv(s) && Inv(t) && Later(s, t) && Later(t, u)
    ensures Later(s, u)
  {
  }

  /** However requests interleave, every state of a run is a later one of its first. */
  lemma {:induction false} LaterRun(s: State, steps: seq<Step>, t: State)
    requires Inv(s) && Run(s, steps, t)
    ensures Inv(t) && Later(s, t)
    decreases |steps|
  {
    if steps != [] {
      var next := Next(s, steps[0]);
      NextInv(s, steps[0]);
      LaterNext(s, steps[0]);
      LaterRun(next, steps[1..], t);
      LaterTransitive(s, next, t);
    }
  }

  /** A deleted file never comes back, so of all deletions of one file at most one succeeds. */
  lemma DeletedForGood(s: State, steps: seq<Step>, t: State, f: Uuid, user: Uuid)
    requires Reachable(s) && f in s.fileIds && Run(s, steps, t)
    ensures f !in s.db.files || s.db.files[f].deleted ==> SoftDeleteFile(t.db, f, user) == None
  {
    ReachableInv(s);
    LaterRun(s, steps, t);
  }

  predicate AddedIn(steps: seq<Step>, f: Uuid) {
    exists i :: 0 <= i < |steps| && steps[i].AddFile? && steps[i].fileId == f
  }

  lemma AddStep(s: State, step: Step, f: Uuid)
    requires Inv(s) && Enabled(s, step)
    ensures f in Next(s, step).db.files ==> (f !in s.db.files <==> step.AddFile? && step.fileId == f)
    ensures step.AddFile? && step.fileId == f ==>
              && f !in s.db.files
              && (f in Next(s, step).db.files <==> step.file.dir in s.db.dirs)
              && (f in Next(s, step).db.files ==> Next(s, step).db.files[f] == step.file)
  {
  }

  /** A file is there that was not there before exactly when it is there and was added. */
  lemma {:induction false} NewFileAdded(s: State, steps: seq<Step>, t: State, f: Uuid)
    requires Inv(s) && Run(s, steps, t) && f in t.db.files
    ensures f !in s.db.files <==> AddedIn(steps, f)
    decreases |steps|
  {
    if steps == [] {
      assert !AddedIn(steps, f);
    } else {
      var next := Next(s, steps[0]);
      NextInv(s, steps[0]);
      LaterNext(s, steps[0]);
      AddStep(s, steps[0], f);
      NewFileAdded(next, steps[1..], t, f);
      AddedFirst(steps, f);
      LaterRun(next, steps[1..], t);
    }
  }

  lemma AddedFirst(steps: seq<Step>, f: Uuid)
    requires steps != []
    ensures AddedIn(steps, f) <==> (steps[0].AddFile? && steps[0].fileId == f) || AddedIn(steps[1..], f)
  {
    if i :| 0 <= i < |steps[1..]| && steps[1..][i].AddFile? && steps[1..][i].fileId == f {
      assert steps[i + 1] == steps[1..][i];
    }
  }

  /** Where both are still there, one directory is below the other now exactly if it was. */
  lemma {:induction false} UnderLater(s: State, t: State, d: Uuid, x: Uuid)
    requires Inv(s) && Inv(t) && Later(s, t) && x in s.db.dirs && x in t.db.dirs
    ensures Under(t.db, d, x) <==> Under(s.db, d, x)
    decreases s.db.born[x]
  {
    if x != d && s.db.dirs[x].parent.Some? {
      UnderLater(s, t, d, s.db.dirs[x].parent.value);
    }
  }

  // ---- What removes directories and marks files ----

  /** One of the steps deletes d or a directory above it, for its owner. */
  predicate DeletedAbove(db: Db, steps: seq<Step>, d: Uuid)
    requires Forest(db) && d in db.dirs
  {
    exists i :: 0 <= i < |steps| && steps[i].Delete? && Removes(db, steps[i], d)
  }

  predicate Removes(db: Db, step: Step, d: Uuid)
    requires Forest(db) && d in db.dirs && step.Delete?
  {
    step.user == db.dirs[d].user && Under(db, step.id, d)
  }

  lemma RemovesStep(s: State, step: Step, d: Uuid)
    requires Inv(s) && Enabled(s, step) && d in s.db.dirs
    ensures d !in Next(s, step).db.dirs <==> step.Delete? && Removes(s.db, step, d)
  {
    if step.Delete? && Under(s.db, step.id, d) { UnderUser(s.db, step.id, d); }
  }

  lemma DeletedAboveLater(s: State, next: State, steps: seq<Step>, d: Uuid)
    requires Inv(s) && Inv(next) && Later(s, next) && d in s.db.dirs && d in next.db.dirs && steps != []
    ensures DeletedAbove(s.db, steps, d)
            <==> (steps[0].Delete? && Removes(s.db, steps[0], d)) || DeletedAbove(next.db, steps[1..], d)
  {
    forall i | 0 <= i < |steps| && steps[i].Delete?
      ensures Removes(next.db, steps[i], d) <==> Removes(s.db, steps[i], d)
    {
      UnderLater(s, next, steps[i].id, d);
    }
    if i :| 0 <= i < |steps[1..]| && steps[1..][i].Delete? && Removes(next.db, steps[1..][i], d) {
      assert steps[i + 1] == steps[1..][i];
    }
    forall i | 0 < i < |steps| ensures steps[i] == steps[1..][i - 1] {}
  }

  /** In every run a directory goes exactly when its owner deletes it or one above it. */
  lemma {:induction false} DirGone(s: State, steps: seq<Step>, t: State, d: Uuid)
    requires Inv(s) && Run(s, steps, t) && d in s.db.dirs
    ensures d !in t.db.dirs <==> DeletedAbove(s.db, steps, d)
    decreases |steps|
  {
    if steps != [] {
      var next := Next(s, steps[0]);
      NextInv(s, steps[0]);
      LaterNext(s, steps[0]);
      RemovesStep(s, steps[0], d);
      if d in next.db.dirs {
        DirGone(next, steps[1..], t, d);
        DeletedAboveLater(s, next, steps, d);
      } else {
        LaterRun(next, steps[1..], t);
      }
    }
  }

  predicate SoftDeletedIn(steps: seq<Step>, f: Uuid, user: Uuid) {
    SoftDelete(f, user) in steps
  }

  lemma MarkStep(s: State, step: Step, f: Uuid)
    requires Inv(s) && Enabled(s, step) && f in s.db.files && f in Next(s, step).db.files
    ensures var file := s.db.files[f];
            Next(s, step).db.files[f] == file.(deleted := file.deleted || step == SoftDelete(f, file.user))
  {
  }

  lemma SoftDeletedFirst(steps: seq<Step>, f: Uuid, user: Uuid)
    requires steps != []
    ensures SoftDeletedIn(steps, f, user) <==> steps[0] == SoftDelete(f, user) || SoftDeletedIn(steps[1..], f, user)
  {
    assert steps == [steps[0]] + steps[1..];
  }

  lemma {:induction false} MarkRun(s: State, steps: seq<Step>, t: State, f: Uuid)
    requires Inv(s) && Run(s, steps, t) && f in s.db.files && f in t.db.files
    ensures var file := s.db.files[f];
            t.db.files[f] == file.(deleted := file.deleted || SoftDeletedIn(steps, f, file.user))
    decreases |steps|
  {
    if steps != [] {
      var next := Next(s, steps[0]);
      NextInv(s, steps[0]);
      LaterNext(s, steps[0]);
      LaterRun(next, steps[1..], t);
      MarkStep(s, steps[0], f);
      MarkRun(next, steps[1..], t, f);
      SoftDeletedFirst(steps, f, s.db.files[f].user);
    }
  }

  /** In every run a file that is still there is the row it was, marked as deleted exactly when
      it was before or its owner has deleted it; and it is there exactly when its directory is. */
  lemma FileKept(s: State, steps: seq<Step>, t: State, f: Uuid)
    requires Inv(s) && Run(s, steps, t) && f in s.db.files
    ensures var file := s.db.files[f];
            && (f in t.db.files <==> file.dir in t.db.dirs)
            && (f in t.db.files ==>
                  t.db.files[f] == file.(deleted := file.deleted || SoftDeletedIn(steps, f, file.user)))
  {
    LaterRun(s, steps, t);
    if f in t.db.files { MarkRun(s, steps, t, f); }
  }

  /** A chain of parent links, from a directory towards its root. */
  ghost predicate Chain(db: Db, path: seq<Uuid>) {
    && (forall i :: 0 <= i < |path| ==> path[i] in db.dirs)
    && (forall i :: 0 <= i < |path| - 1 ==> db.dirs[path[i]].parent == Some(path[i + 1]))
  }

  lemma {:induction false} ChainDescends(db: Db, path: seq<Uuid>, i: nat, j: nat)
    requires Forest(db) && Chain(db, path) && i < j < |path|
    ensures db.born[path[j]] < db.born[path[i]] && db.dirs[path[j]].user == db.dirs[path[i]].user
    decreases j - i
  {
    assert db.dirs[path[i]].parent == Some(path[i + 1]);
    if i + 1 < j {
      ChainDescends(db, path, i + 1, j);
    }
  }

  /** In every run: every parent exists and has its child's owner, no chain of parent links
      meets a directory twice, so it is no longer than the table, and it has one owner. */
  lemma ForestAlways(s: State, path: seq<Uuid>)
    requires Reachable(s)
    ensures Forest(s.db) && Unique(s.db)
    ensures Chain(s.db, path) ==>
              && NoDup(path) && |path| <= |s.db.dirs|
              && forall i, j :: 0 <= i < j < |path| ==> s.db.dirs[path[i]].user == s.db.dirs[path[j]].user
  {
    ReachableInv(s);
    if Chain(s.db, path) {
      forall i, j | 0 <= i < j < |path|
        ensures path[i] != path[j] && s.db.dirs[path[i]].user == s.db.dirs[path[j]].user
      {
        ChainDescends(s.db, path, i, j);
      }
      NoDupSize(path, s.db.dirs.Keys);
    }
  }

  // ---- Paths ----

  /** The names from below root down to d. */
  ghost function PathFrom(db: Db, root: Uuid, d: Uuid): seq<string>
    requires Forest(db) && d in db.dirs && Under(db, root, d)
    decreases db.born[d]
  {
    if d == root then [] else PathFrom(db, root, db.dirs[d].parent.value) + [db.dirs[d].name]
  }

  lemma {:induction false} UnderUser(db: Db, root: Uuid, d: Uuid)
    requires Forest(db) && d in db.dirs && Under(db, root, d)
    ensures root in db.dirs && db.dirs[d].user == db.dirs[root].user && db.born[root] <= db.born[d]
    decreases db.born[d]
  {
    if d != root {
      UnderUser(db, root, db.dirs[d].parent.value);
    }
  }

  lemma {:induction false} PathsDiffer(db: Db, root: Uuid, d: Uuid, e: Uuid)
    requires Forest(db) && Unique(db) && d in db.dirs && e in db.dirs && Under(db, root, d) && Under(db, root, e)
    ensures PathFrom(db, root, d) == PathFrom(db, root, e) <==> d == e
    decreases db.born[d]
  {
    UnderUser(db, root, d);
    UnderUser(db, root, e);
    if d != root && e != root && PathFrom(db, root, d) == PathFrom(db, root, e) {
      var p, q := db.dirs[d].parent.value, db.dirs[e].parent.value;
      var before, last := PathFrom(db, root, p), [db.dirs[d].name];
      assert before == (before + last)[..|before|] && PathFrom(db, root, q) == (before + last)[..|before|];
      assert db.dirs[d].name == (before + last)[|before|] == db.dirs[e].name;
      PathsDiffer(db, root, p, q);
    }
  }

  /** Below one root, two different directories never have the same path of names. */
  lemma PathUnique(s: State, root: Uuid, d: Uuid, e: Uuid)
    requires Reachable(s) && d in s.db.dirs && e in s.db.dirs
    ensures Forest(s.db)
    ensures Under(s.db, root, d) && Under(s.db, root, e) && d != e ==>
              PathFrom(s.db, root, d) != PathFrom(s.db, root, e)
  {
    ForestAlways(s, []);
    if Under(s.db, root, d) && Under(s.db, root, e) {
      PathsDiffer(s.db, root, d, e);
    }
  }

  /** Roots are not covered: one user can own two roots of the same name. */
  lemma RootsCanShareName(user: Uuid, a: Uuid, b: Uuid)
    requires a != b
    ensures exists s :: Reachable(s) && a in s.db.dirs && b in s.db.dirs && s.db.dirs[a] == s.db.dirs[b]
  {
    var row := Dir(user, None, "docs");
    assert Run(START, [], START);
    var s := CreateRun(START, 0, a, row);
    s := CreateRun(s, 0, b, row);
  }

  /** The parent, if any, is the owner's and has no such child yet. */
  predicate HasPlace(db: Db, row: Dir) {
    row.parent.Some? ==>
      && row.parent.value in db.dirs && db.dirs[row.parent.value].user == row.user
      && forall d :: d in db.dirs ==> db.dirs[d] != row
  }

  lemma InsertExactly(db: Db, id: Uuid, row: Dir)
    requires id !in db.dirs
    requires row.parent.Some? && row.parent.value in db.dirs ==> db.dirs[row.parent.value].user == row.user
    ensures InsertDir(db, id, row).Some? <==> HasPlace(db, row)
  {
    assert row in db.dirs.Values <==> exists d :: d in db.dirs && db.dirs[d] == row;
  }

  /** A Create request run through inserts its row exactly when there is a place for it. */
  lemma CreateRun(s: State, request: nat, id: Uuid, row: Dir) returns (t: State)
    requires Reachable(s) && request !in s.pending && id !in s.db.born
    ensures Reachable(t) && t.pending == s.pending && t.db.files == s.db.files && t.fileIds == s.fileIds
    ensures t.db.dirs == if HasPlace(s.db, row) then s.db.dirs[id := row] else s.db.dirs
    ensures t.db.born.Keys == if HasPlace(s.db, row) then s.db.born.Keys + {id} else s.db.born.Keys
  {
    ReachableInv(s);
    t := ReachableNext(s, CheckParent(request, row));
    if request in t.pending {
      InsertExactly(s.db, id, row);
      t := ReachableNext(t, Insert(request, id));
      assert t.pending == s.pending;
    }
  }

  lemma {:induction false} RunSnoc(s: State, steps: seq<Step>, t: State, step: Step)
    requires Inv(s) && Run(s, steps, t) && Enabled(t, step)
    ensures Forest(t.db) && Run(s, steps + [step], Next(t, step))
    decreases |steps|
  {
    if steps == [] {
      assert Run(Next(s, step), [], Next(t, step));
      assert ([] + [step])[1..] == [];
    } else {
      NextInv(s, steps[0]);
      RunSnoc(Next(s, steps[0]), steps[1..], t, step);
      assert (steps + [step])[1..] == steps[1..] + [step];
    }
  }

  lemma ReachableNext(s: State, step: Step) returns (t: State)
    requires Reachable(s) && Enabled(s, step)
    ensures Forest(s.db) && t == Next(s, step) && Reachable(t)
  {
    var steps :| Run(START, steps, s);
    RunSnoc(START, steps, s, step);
    t := Next(s, step);
  }
}
