/** The directory and file repositories and the directory service over one database. */
module Directories {
  import opened Bytes
  import opened Lists
  import opened Tables
  import opened Listing

  datatype DirError = DirNotFound | ConstraintViolation

  class Database {
    var dirs: map<Uuid, Dir>
    var files: map<Uuid, File>
    var born: map<Uuid, nat>
    var clock: nat

    function View(): Db
      reads this
    {
      Db(dirs, files, born, clock)
    }

    constructor ()
      ensures View() == EMPTY
    {
      dirs, files, born, clock := map[], map[], map[], 0;
    }

    // ---- Repositories ----

    /** ListSubDirs; the order of the rows is left open. */
    method ListSubDirs(user: Uuid, parent: Uuid) returns (ids: seq<Uuid>)
      ensures NoDup(ids) && forall c :: c in ids <==> c in Children(View(), user, parent)
      ensures forall c :: c in ids <==> c in dirs && dirs[c].user == user && dirs[c].parent == Some(parent)
    {
      ids := [];
      var rows := dirs.Keys;
      while rows != {}
        invariant rows <= dirs.Keys && NoDup(ids)
        invariant forall c :: c in ids <==> c in Children(View(), user, parent) && c !in rows
        decreases rows
      {
        var c :| c in rows;
        rows := rows - {c};
        if dirs[c].user == user && dirs[c].parent == Some(parent) {
          ids := ids + [c];
        }
      }
    }

    /** ListByDirectory; the order of the rows is left open. */
    method ListByDirectory(dir: Uuid, user: Uuid) returns (ids: seq<Uuid>)
      ensures NoDup(ids) && forall f :: f in ids <==> f in FilesIn(View(), user, dir)
      ensures forall f :: f in ids <==> f in files && files[f].dir == dir && files[f].user == user && !files[f].deleted
    {
      ids := [];
      var rows := files.Keys;
      while rows != {}
        invariant rows <= files.Keys && NoDup(ids)
        invariant forall f :: f in ids <==> f in FilesIn(View(), user, dir) && f !in rows
        decreases rows
      {
        var f :| f in rows;
        rows := rows - {f};
        if InDir(View(), user, dir, f) {
          ids := ids + [f];
        }
      }
    }

    /** One round of the recursive part: the subdirectories of everything in `work`. */
    method Join(user: Uuid, work: seq<Uuid>) returns (next: seq<Uuid>)
      requires NoDup(work)
      ensures NoDup(next)
      ensures forall c :: c in next <==> exists s :: s in work && c in Children(View(), user, s)
    {
      next := [];
      for i := 0 to |work|
        invariant NoDup(next)
        invariant forall c :: c in next <==> exists s :: s in work[..i] && c in Children(View(), user, s)
      {
        var ids := ListSubDirs(user, work[i]);
        forall c | c in next ensures c !in ids {}
        NoDupConcat(next, ids);
        assert work[..i + 1] == work[..i] + [work[i]];
        next := next + ids;
      }
      assert work[..|work|] == work;
    }

    /** WITH RECURSIVE subdirs: rounds of UNION ALL until one adds nothing. It ends because
        every round finds new directories of the subtree. */
    method SubDirs(root: Uuid, user: Uuid) returns (acc: seq<Uuid>)
      requires Forest(View())
      ensures NoDup(acc)
      ensures forall x :: x in acc <==> Owned(View(), user, root) && x in Subtree(View(), root)
    {
      acc := [];
      if root !in dirs || dirs[root].user != user { return; }
      var work := [root];
      while work != []
        invariant Rounds(View(), user, root, acc, work)
        decreases |Subtree(View(), root)| - |acc|
      {
        NoDupConcat(acc, work);
        var next := Join(user, work);
        NextRound(View(), user, root, acc, work, next);
        RoundsFit(View(), user, root, acc, work);
        acc, work := acc + work, next;
      }
      assert acc + [] == acc;
      forall x | x in Subtree(View(), root) ensures x in acc { RoundsComplete(View(), user, root, acc, x); }
    }

    /** ListAllRecursive: the files of all those directories. As a multiset it is what the
        simple walk over the subdirectories lists, each file once. */
    method ListAllRecursive(root: Uuid, user: Uuid) returns (ids: seq<Uuid>)
      requires Forest(View())
      ensures NoDup(ids)
      ensures forall f :: f in ids <==> Owned(View(), user, root) && Listed(View(), user, root, f)
      ensures Owned(View(), user, root) ==> forall f :: multiset(ids)[f] == WalkCount(View(), user, root, f)
    {
      var subdirs := SubDirs(root, user);
      ids := [];
      for i := 0 to |subdirs|
        invariant NoDup(ids)
        invariant forall f :: f in ids <==> exists s :: s in subdirs[..i] && f in FilesIn(View(), user, s)
      {
        var found := ListByDirectory(subdirs[i], user);
        forall f | f in ids ensures f !in found {}
        NoDupConcat(ids, found);
        assert subdirs[..i + 1] == subdirs[..i] + [subdirs[i]];
        ids := ids + found;
      }
      assert subdirs[..|subdirs|] == subdirs;
      if Owned(View(), user, root) {
        forall f ensures f in ids <==> Listed(View(), user, root, f) {
          ListedInSubtree(View(), user, root, subdirs, f);
        }
        forall f ensures multiset(ids)[f] == WalkCount(View(), user, root, f) {
          ListingIsWalk(View(), user, root, ids, f);
        }
      }
    }

    // ---- Directory service ----

    /** Other requests run until the next statement of this one. */
    method Interleave(to: Db)
      modifies this
      ensures View() == to
    {
      dirs, files, born, clock := to.dirs, to.files, to.born, to.clock;
    }

    /** Create: the parent must exist and be the caller's; the insert then finds the tables as
        other requests have left them in `found`, where the parent may be gone. */
    method CreateDirectory(user: Uuid, parent: Option<Uuid>, name: string, id: Uuid, found: Db)
      returns (err: Option<DirError>)
      requires Forest(View()) && Forest(found) && Unique(found) && LaterDirs(View(), found) && id !in found.born
      modifies this
      ensures err == Some(DirNotFound) <==> parent.Some? && !Owned(old(View()), user, parent.value)
      ensures err == Some(DirNotFound) ==> View() == old(View())
      ensures err != Some(DirNotFound) ==>
                && Forest(View()) && Unique(View())
                && (err == Some(ConstraintViolation) <==>
                      && parent.Some?
                      && (parent.value !in found.dirs
                          || exists d :: d in found.dirs && found.dirs[d] == Dir(user, parent, name)))
      ensures err == Some(ConstraintViolation) ==> View() == found
      ensures err == None ==> dirs == found.dirs[id := Dir(user, parent, name)] && files == found.files
    {
      if parent.Some? {
        if parent.value !in dirs { return Some(DirNotFound); }
        if dirs[parent.value].user != user { return Some(DirNotFound); }
      }
      Interleave(found);
      var row := Dir(user, parent, name);
      InsertDirKeeps(found, id, row);
      var inserted := InsertDir(found, id, row);
      if inserted.None? { return Some(ConstraintViolation); }
      Interleave(inserted.value);
      err := None;
    }

    /** Get: the caller's directory with its direct subdirectories and live files. The two lists
        are queried concurrently, in either order, and other requests may come before each:
        they leave the tables as `forDirs` and as `forFiles`. */
    method GetDirectory(id: Uuid, user: Uuid, forDirs: Db, forFiles: Db, filesFirst: bool)
      returns (err: Option<DirError>, subdirs: seq<Uuid>, found: seq<Uuid>)
      modifies this
      ensures err == if Owned(old(View()), user, id) then None else Some(DirNotFound)
      ensures err != None ==> View() == old(View()) && subdirs == [] && found == []
      ensures err == None ==>
                && View() == (if filesFirst then forDirs else forFiles)
                && NoDup(subdirs) && NoDup(found)
                && (forall c :: c in subdirs <==> c in Children(forDirs, user, id))
                && (forall f :: f in found <==> f in FilesIn(forFiles, user, id))
    {
      err, subdirs, found := None, [], [];
      if id !in dirs || dirs[id].user != user { return Some(DirNotFound), [], []; }
      if filesFirst {
        Interleave(forFiles);
        found := ListByDirectory(id, user);
        Interleave(forDirs);
        subdirs := ListSubDirs(user, id);
      } else {
        Interleave(forDirs);
        subdirs := ListSubDirs(user, id);
        Interleave(forFiles);
        found := ListByDirectory(id, user);
      }
    }

    /** Delete: check the owner, list, cascade, with other requests in between: they leave the
        tables as `listed` and then as `found`. `announced` is what the caller is told about;
        if nobody came in between, it is exactly what the cascade took of the caller's live
        files (and Listing.ListedLater tells what it is otherwise). */
    method DeleteDirectory(id: Uuid, user: Uuid, listed: Db, found: Db)
      returns (err: Option<DirError>, announced: seq<Uuid>)
      requires Forest(listed) && Forest(found) && Unique(found)
      modifies this
      ensures err == if Owned(old(View()), user, id) && Owned(found, user, id) then None else Some(DirNotFound)
      ensures err != None ==> announced == [] && View() == if Owned(old(View()), user, id) then found else old(View())
      ensures err == None ==>
                && View() == Cascade(found, id) && Forest(View()) && Unique(View())
                && (forall d :: d in dirs <==> d in found.dirs && !Under(found, id, d))
                && (forall d :: d in dirs ==> dirs[d] == found.dirs[d])
                && (forall f :: f in files <==> f in found.files && !Under(found, id, found.files[f].dir))
                && (forall f :: f in files ==> files[f] == found.files[f])
                && NoDup(announced)
                && (forall f :: f in announced <==> Owned(listed, user, id) && Listed(listed, user, id, f))
                && (listed == found ==> forall f :: f in announced <==> Taken(found, user, id, f))
    {
      if id !in dirs || dirs[id].user != user { return Some(DirNotFound), []; }
      Interleave(listed);
      announced := ListAllRecursive(id, user);
      Interleave(found);
      if id !in dirs || dirs[id].user != user { return Some(DirNotFound), []; }
      CascadeKeeps(found, id);
      if listed == found {
        forall f ensures f in announced <==> Taken(found, user, id, f) { CascadeAgrees(found, user, id, f, id); }
      }
      Interleave(Cascade(found, id));
      err := None;
    }
  }
}
