/** The recursive listing of a directory against the simple walk it replaces, and against
    the cascade that follows it. */
module Listing {
  import opened Bytes
  import opened Lists
  import opened Tables

  /** ListSubDirs: the directories of `user` whose parent is d. */
  function Children(db: Db, user: Uuid, d: Uuid): set<Uuid> {
    set c | c in db.dirs && db.dirs[c].user == user && db.dirs[c].parent == Some(d)
  }

  /** ListByDirectory: the live files of `user` directly in d. */
  function FilesIn(db: Db, user: Uuid, d: Uuid): set<Uuid> {
    set f | f in db.files && InDir(db, user, d, f)
  }

  predicate InDir(db: Db, user: Uuid, d: Uuid, f: Uuid)
    requires f in db.files
  {
    db.files[f].dir == d && db.files[f].user == user && !db.files[f].deleted
  }

  /** A live file of `user` somewhere in the subtree of d. */
  predicate Listed(db: Db, user: Uuid, d: Uuid, f: Uuid)
    requires Forest(db)
  {
    f in db.files && db.files[f].user == user && !db.files[f].deleted && Under(db, d, db.files[f].dir)
  }

  predicate Owned(db: Db, user: Uuid, d: Uuid) { d in db.dirs && db.dirs[d].user == user }

  /** How often the walk that lists d and then walks each of its subdirectories meets f. */
  ghost function WalkCount(db: Db, user: Uuid, d: Uuid, f: Uuid): nat
    requires Forest(db) && Owned(db, user, d)
    decreases db.clock - db.born[d], 1, 0
  {
    (if f in FilesIn(db, user, d) then 1 else 0) + WalkCounts(db, user, d, Children(db, user, d), f)
  }

  ghost function WalkCounts(db: Db, user: Uuid, d: Uuid, cs: set<Uuid>, f: Uuid): nat
    requires Forest(db) && Owned(db, user, d) && cs <= Children(db, user, d)
    decreases db.clock - db.born[d], 0, |cs|
  {
    if cs == {} then 0
    else
      var c :| c in cs;
      WalkCount(db, user, c, f) + WalkCounts(db, user, d, cs - {c}, f)
  }

  // ---- The shape of a subtree ----

  lemma {:induction false} Comparable(db: Db, a: Uuid, b: Uuid, x: Uuid)
    requires Forest(db) && a in db.dirs && b in db.dirs && x in db.dirs && Under(db, a, x) && Under(db, b, x)
    ensures Under(db, a, b) || Under(db, b, a)
    decreases db.born[x]
  {
    if a != x && b != x {
      Comparable(db, a, b, db.dirs[x].parent.value);
    }
  }

  lemma SiblingsDisjoint(db: Db, a: Uuid, b: Uuid, x: Uuid)
    requires Forest(db) && a in db.dirs && b in db.dirs && x in db.dirs && Under(db, a, x) && Under(db, b, x)
    requires db.dirs[a].parent.Some? && db.dirs[a].parent == db.dirs[b].parent
    ensures a == b
  {
    Comparable(db, a, b, x);
    var p := db.dirs[a].parent.value;
    if a != b {
      UnderUser(db, if Under(db, a, b) then a else b, p);
    }
  }

  lemma {:induction false} UnderTransitive(db: Db, a: Uuid, b: Uuid, x: Uuid)
    requires Forest(db) && b in db.dirs && x in db.dirs && Under(db, a, b) && Under(db, b, x)
    ensures Under(db, a, x)
    decreases db.born[x]
  {
    if x != b {
      UnderTransitive(db, a, b, db.dirs[x].parent.value);
    }
  }

  /** The child of d on the way down to x. */
  lemma {:induction false} StepDown(db: Db, user: Uuid, d: Uuid, x: Uuid) returns (c: Uuid)
    requires Forest(db) && Owned(db, user, d) && x in db.dirs && Under(db, d, x) && x != d
    ensures c in Children(db, user, d) && Under(db, c, x)
    decreases db.born[x]
  {
    UnderUser(db, d, x);
    var p := db.dirs[x].parent.value;
    if p == d {
      c := x;
    } else {
      c := StepDown(db, user, d, p);
    }
  }

  // ---- The walk meets every listed file once ----

  lemma {:induction false} WalkOnce(db: Db, user: Uuid, d: Uuid, f: Uuid)
    requires Forest(db) && Owned(db, user, d)
    ensures WalkCount(db, user, d, f) == if Listed(db, user, d, f) then 1 else 0
    decreases db.clock - db.born[d], 1, 0
  {
    var cs := Children(db, user, d);
    WalkSiblings(db, user, d, cs, f);
    if Listed(db, user, d, f) {
      var x := db.files[f].dir;
      if x == d {
        forall c | c in cs ensures !Under(db, c, x) {
          if Under(db, c, x) { UnderUser(db, c, x); }
        }
      } else {
        var c := StepDown(db, user, d, x);
      }
    } else if f in db.files {
      forall c | c in cs ensures !Listed(db, user, c, f) {
        if Listed(db, user, c, f) { UnderTransitive(db, d, c, db.files[f].dir); }
      }
    }
  }

  lemma {:induction false} WalkSiblings(db: Db, user: Uuid, d: Uuid, cs: set<Uuid>, f: Uuid)
    requires Forest(db) && Owned(db, user, d) && cs <= Children(db, user, d)
    ensures WalkCounts(db, user, d, cs, f) == if exists c :: c in cs && Listed(db, user, c, f) then 1 else 0
    decreases db.clock - db.born[d], 0, |cs|
  {
    if cs != {} {
      var c :| c in cs
               && WalkCounts(db, user, d, cs, f) == WalkCount(db, user, c, f) + WalkCounts(db, user, d, cs - {c}, f);
      WalkOnce(db, user, c, f);
      WalkSiblings(db, user, d, cs - {c}, f);
      if Listed(db, user, c, f) {
        forall e | e in cs - {c} ensures !Listed(db, user, e, f) {
          if Listed(db, user, e, f) { SiblingsDisjoint(db, c, e, db.files[f].dir); }
        }
      }
    }
  }

  /** A listing without duplicates that has exactly the listed files is the walk's multiset. */
  lemma ListingIsWalk(db: Db, user: Uuid, d: Uuid, files: seq<Uuid>, f: Uuid)
    requires Forest(db) && Owned(db, user, d)
    requires NoDup(files) && (f in files <==> Listed(db, user, d, f))
    ensures multiset(files)[f] == WalkCount(db, user, d, f)
  {
    WalkOnce(db, user, d, f);
    NoDupCount(files, f);
  }

  // ---- The recursive query, round by round ----

  /** Earlier rounds are in `acc`, the latest in `work`. */
  ghost predicate Rounds(db: Db, user: Uuid, root: Uuid, acc: seq<Uuid>, work: seq<Uuid>)
    requires Forest(db)
  {
    && Owned(db, user, root) && root in acc + work && NoDup(acc + work)
    && (forall x :: x in acc + work ==> x in db.dirs && Under(db, root, x))
    && (forall x :: x in acc + work && x != root ==> db.dirs[x].parent.Some? && db.dirs[x].parent.value in acc)
    && (forall p, c :: p in acc && c in Children(db, user, p) ==> c in acc + work)
  }

  lemma NextRound(db: Db, user: Uuid, root: Uuid, acc: seq<Uuid>, work: seq<Uuid>, next: seq<Uuid>)
    requires Forest(db) && Rounds(db, user, root, acc, work) && NoDup(next)
    requires forall c :: c in next <==> exists s :: s in work && c in Children(db, user, s)
    ensures Rounds(db, user, root, acc + work, next)
  {
    NoDupConcat(acc, work);
    forall c | c in next ensures c !in acc + work && Under(db, root, c) {
      var s :| s in work && c in Children(db, user, s);
      UnderUser(db, root, s);
    }
    NoDupConcat(acc + work, next);
  }

  lemma RoundsFit(db: Db, user: Uuid, root: Uuid, acc: seq<Uuid>, work: seq<Uuid>)
    requires Forest(db) && Rounds(db, user, root, acc, work)
    ensures |acc| + |work| <= |Subtree(db, root)|
  {
    NoDupSize(acc + work, Subtree(db, root));
  }

  lemma {:induction false} RoundsComplete(db: Db, user: Uuid, root: Uuid, acc: seq<Uuid>, x: Uuid)
    requires Forest(db) && Rounds(db, user, root, acc, []) && x in db.dirs && Under(db, root, x)
    ensures x in acc
    decreases db.born[x]
  {
    assert acc + [] == acc;
    if x != root {
      UnderUser(db, root, x);
      var p := db.dirs[x].parent.value;
      RoundsComplete(db, user, root, acc, p);
      assert x in Children(db, user, p);
    }
  }

  lemma ListedInSubtree(db: Db, user: Uuid, root: Uuid, subdirs: seq<Uuid>, f: Uuid)
    requires Forest(db) && forall x :: x in subdirs <==> x in Subtree(db, root)
    ensures Listed(db, user, root, f) <==> exists s :: s in subdirs && f in FilesIn(db, user, s)
  {
    if Listed(db, user, root, f) {
      assert db.files[f].dir in subdirs && f in FilesIn(db, user, db.files[f].dir);
    }
  }

  // ---- The cascade ----

  /** A live file of `user` that deleting d would remove. */
  predicate Taken(db: Db, user: Uuid, d: Uuid, f: Uuid)
    requires Forest(db)
  {
    f in db.files && f !in Cascade(db, d).files && db.files[f].user == user && !db.files[f].deleted
  }

  /** Deleting d removes exactly its subtree, and of the caller's live files exactly the
      listed ones; nothing left refers to a removed directory. */
  lemma CascadeAgrees(db: Db, user: Uuid, d: Uuid, f: Uuid, x: Uuid)
    requires Forest(db) && Unique(db) && Owned(db, user, d)
    ensures var after := Cascade(db, d);
            && Forest(after)
            && (x in db.dirs && x !in after.dirs <==> x in db.dirs && Under(db, d, x))
            && (x in db.dirs && x !in after.dirs ==> db.dirs[x].user == user)
            && (x in after.dirs ==> x in db.dirs && after.dirs[x] == db.dirs[x])
            && (f in after.files <==> f in db.files && !Under(db, d, db.files[f].dir))
            && (f in after.files ==> after.files[f] == db.files[f])
            && (Taken(db, user, d, f) <==> Listed(db, user, d, f))
  {
    CascadeKeeps(db, d);
    if x in db.dirs && Under(db, d, x) { UnderUser(db, d, x); }
  }

  /** The listing covers every live file the cascade removes exactly when nobody else keeps
      a live file in the subtree; uploading does not check who owns the directory. */
  lemma ListingCoversCascade(db: Db, user: Uuid, d: Uuid)
    requires Forest(db) && Owned(db, user, d)
    ensures (forall f, owner :: Taken(db, owner, d, f) ==> Listed(db, user, d, f))
            <==> (forall f, owner :: Listed(db, owner, d, f) ==> owner == user)
  {
    forall f, owner ensures Taken(db, owner, d, f) <==> Listed(db, owner, d, f) {}
  }

  /** From every state, one upload by somebody else anywhere below a directory leads to a state
      in which deleting the directory takes that file and its owner's listing lacks it. */
  lemma OthersFileTaken(s: Tables.State, user: Uuid, d: Uuid, f: Uuid, file: File)
    requires Reachable(s) && f !in s.fileIds && Forest(s.db) && Owned(s.db, user, d)
    requires file.dir in s.db.dirs && Under(s.db, d, file.dir) && file.user != user && !file.deleted
    ensures exists t :: Reachable(t) && Forest(t.db) && Owned(t.db, user, d)
                        && Taken(t.db, file.user, d, f) && !Listed(t.db, user, d, f)
  {
    ReachableInv(s);
    LaterNext(s, AddFile(f, file));
    var t := ReachableNext(s, AddFile(f, file));
    ReachableInv(t);
    UnderLater(s, t, d, file.dir);
    assert Taken(t.db, file.user, d, f);
  }

  // ---- Other requests between the listing and the cascade ----

  /** s0 is the state that was listed and s1 the state the cascade finds, after any steps of
      other requests. A file that is taken was listed unless it was added in between, and a
      listed file is taken unless it was deleted in between or its directory was. */
  lemma ListedLater(s0: Tables.State, steps: seq<Step>, s1: Tables.State, user: Uuid, d: Uuid, f: Uuid)
    requires Reachable(s0) && Run(s0, steps, s1)
    ensures Forest(s0.db) && Forest(s1.db)
    ensures Taken(s1.db, user, d, f) ==> (Listed(s0.db, user, d, f) <==> !AddedIn(steps, f))
    ensures Listed(s0.db, user, d, f) ==> (Taken(s1.db, user, d, f) <==> f in s1.db.files && !s1.db.files[f].deleted)
    ensures Listed(s0.db, user, d, f) && f !in s1.db.files ==> s0.db.files[f].dir !in s1.db.dirs
  {
    ReachableInv(s0);
    LaterRun(s0, steps, s1);
    if f in s1.db.files {
      NewFileAdded(s0, steps, s1, f);
      if f in s0.db.files { UnderLater(s0, s1, d, s1.db.files[f].dir); }
    }
  }

  /** The files announced from the listing are those of the caller's live files that the
      cascade takes, exactly when none of these was added in between and no listed one was
      deleted in between. */
  lemma AnnouncedExactly(s0: Tables.State, steps: seq<Step>, s1: Tables.State, user: Uuid, d: Uuid)
    requires Reachable(s0) && Run(s0, steps, s1)
    ensures Forest(s0.db) && Forest(s1.db)
    ensures (forall f :: Listed(s0.db, user, d, f) <==> Taken(s1.db, user, d, f)) <==>
              && (forall f :: Taken(s1.db, user, d, f) ==> !AddedIn(steps, f))
              && (forall f :: Listed(s0.db, user, d, f) ==> f in s1.db.files && !s1.db.files[f].deleted)
  {
    ListedLater(s0, steps, s1, user, d, d);
    forall f
      ensures Taken(s1.db, user, d, f) ==> (Listed(s0.db, user, d, f) <==> !AddedIn(steps, f))
      ensures Listed(s0.db, user, d, f) ==> (Taken(s1.db, user, d, f) <==> f in s1.db.files && !s1.db.files[f].deleted)
    {
      ListedLater(s0, steps, s1, user, d, f);
    }
  }

  /** From every state with an owned directory, one insert of a file of its owner anywhere
      below it, between listing and cascade, makes a file that is taken unlisted. */
  lemma InterleavedFileMissed(s: Tables.State, user: Uuid, d: Uuid, f: Uuid, file: File)
    requires Reachable(s) && f !in s.fileIds && Forest(s.db)
    requires file.dir in s.db.dirs && Under(s.db, d, file.dir) && file.user == user && !file.deleted
    ensures exists t ::
              Run(s, [AddFile(f, file)], t) && Forest(t.db) && Taken(t.db, user, d, f) && !Listed(s.db, user, d, f)
  {
    ReachableInv(s);
    var t := Next(s, AddFile(f, file));
    OneStep(s, AddFile(f, file));
    UnderLater(s, t, d, file.dir);
    assert Taken(t.db, user, d, f);
  }

  /** And one deletion of a listed file in between leaves it announced though the cascade
      takes no live file there. */
  lemma InterleavedFileDeleted(s: Tables.State, user: Uuid, d: Uuid, f: Uuid)
    requires Reachable(s) && Forest(s.db) && Listed(s.db, user, d, f)
    ensures exists t :: Run(s, [SoftDelete(f, user)], t) && Forest(t.db) && !Taken(t.db, user, d, f)
  {
    ReachableInv(s);
    OneStep(s, SoftDelete(f, user));
  }

  lemma OneStep(s: Tables.State, step: Step)
    requires Inv(s) && Enabled(s, step)
    ensures Run(s, [step], Next(s, step)) && Inv(Next(s, step)) && Later(s, Next(s, step))
  {
    NextInv(s, step);
    LaterNext(s, step);
    assert Run(Next(s, step), [], Next(s, step)) && [step][1..] == [];
  }
}
