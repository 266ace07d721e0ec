/** The file service: concurrent uploads into the object storage and the files table,
    deletions, and downloads. */
module Files {
  import opened Bytes
  import opened Nonce
  import opened Container
  import opened Streams
  import opened Tables
  import Upload

  // ---- Storage keys ----

  function StorageKey(user: Uuid, file: Uuid): string {
    "users/" + user.text + "/files/" + file.text
  }

  predicate SlashFree(id: Uuid) { '/' !in id.text }

  lemma {:induction false} FirstSlash(s: string, t: string, u: string, v: string)
    requires '/' !in s && '/' !in t && s + "/" + u == t + "/" + v
    ensures s == t && u == v
  {
    var x, y := s + "/" + u, t + "/" + v;
    assert x[|s|] == '/' && y[|t|] == '/';
    assert forall i :: 0 <= i < |s| ==> x[i] == s[i] && s[i] in s;
    assert forall i :: 0 <= i < |t| ==> y[i] == t[i] && t[i] in t;
    assert s == x[..|s|] && t == y[..|t|];
    assert u == x[|s| + 1..] && v == y[|t| + 1..];
  }

  /** With slash-free user ids, different users or files have different keys. */
  lemma StorageKeyInjective(user: Uuid, file: Uuid, user': Uuid, file': Uuid)
    requires SlashFree(user) && SlashFree(user')
    ensures StorageKey(user, file) == StorageKey(user', file') <==> user == user' && file == file'
  {
    var x, y := StorageKey(user, file), StorageKey(user', file');
    if x == y {
      var u, v := "files/" + file.text, "files/" + file'.text;
      assert x == "users/" + (user.text + "/" + u) && y == "users/" + (user'.text + "/" + v);
      assert user.text + "/" + u == x[6..] && user'.text + "/" + v == y[6..];
      FirstSlash(user.text, user'.text, u, v);
      assert file.text == u[6..] && file'.text == v[6..];
    }
  }

  // ---- Concurrent uploads, deletions and cascades ----

  datatype Request = Request(user: Uuid, dir: Uuid, encrypt: bool, base: NonceBytes, source: seq<byte>, end: End)

  datatype System = System(
    tables: Tables.State,
    objects: map<string, seq<byte>>,
    requests: map<Uuid, Request>,      // every upload ever begun, by the id of its file
    uploads: map<Uuid, Upload.State>)

  datatype Step =
    | Begin(id: Uuid, request: Request)
    | Advance(id: Uuid, step: Upload.Step)
    | TableStep(inner: Tables.Step)

  const START := System(Tables.START, map[], map[], map[])

  function RowOf(id: Uuid, r: Request): File {
    File(r.user, r.dir, StorageKey(r.user, id), r.encrypt, false)
  }

  function Inserting(id: Uuid, r: Request): Tables.Step { AddFile(id, RowOf(id, r)) }

  /** Users and file ids are UUIDs, and file ids are fresh. A row can be inserted only under an
      existing directory and may be refused for any other reason too. All other requests
      change the tables at will, but only uploads insert files. */
  ghost predicate Enabled(s: System, step: Step) {
    && Forest(s.tables.db)
    && match step
       case Begin(id, r) => id !in s.requests && SlashFree(r.user)
       case Advance(id, step) =>
         && id in s.requests && id in s.uploads && Upload.Enabled(s.uploads[id], step)
         && (step == Upload.Create(true) ==> s.requests[id].dir in s.tables.db.dirs && id !in s.tables.fileIds)
       case TableStep(inner) => Tables.Enabled(s.tables, inner) && !inner.AddFile?
  }

  ghost function Next(a: Cipher, s: System, step: Step): System
    requires Enabled(s, step)
  {
    match step
    case Begin(id, r) =>
      s.(requests := s.requests[id := r], uploads := s.uploads[id := Upload.Start(a, r.base, r.source, r.end)])
    case Advance(id, step) =>
      var r, u := s.requests[id], Upload.Next(s.uploads[id], step);
      s.(uploads := s.uploads[id := u],
         objects := if step.SeeEnd? && u.blob.Some? then s.objects[StorageKey(r.user, id) := u.blob.value]
                    else s.objects,
         tables := if step == Upload.Create(true) then Tables.Next(s.tables, Inserting(id, r)) else s.tables)
    case TableStep(inner) => s.(tables := Tables.Next(s.tables, inner))
  }

  ghost predicate Run(a: Cipher, s: System, steps: seq<Step>, t: System)
    decreases |steps|
  {
    if steps == [] then s == t
    else Enabled(s, steps[0]) && Run(a, Next(a, s, steps[0]), steps[1..], t)
  }

  ghost predicate Reachable(a: Cipher, s: System) {
    exists steps :: Run(a, START, steps, s)
  }

  function Total(a: Cipher, r: Request): seq<byte> { Encrypted(a, r.base, r.source) }

  /** Upload `id` is a reachable upload, its object is where it should be, and so is its row
      unless the directory is gone. */
  ghost predicate UploadInv(a: Cipher, s: System, id: Uuid)
    requires id in s.requests && id in s.uploads
  {
    var r, u := s.requests[id], s.uploads[id];
    && SlashFree(r.user)
    && Upload.Reachable(a, r.base, r.source, r.end, u)
    && (u.blob.Some? ==> StorageKey(r.user, id) in s.objects && s.objects[StorageKey(r.user, id)] == u.blob.value)
    && (u.created == Some(true) <==> id in s.tables.fileIds)
    && (u.created == Some(true) ==> RowKept(s.tables, id, r))
  }

  predicate RowKept(s: Tables.State, id: Uuid, r: Request) {
    && r.dir in s.db.born
    && (id in s.db.files ==> s.db.files[id].(deleted := false) == RowOf(id, r))
    && (id !in s.db.files ==> r.dir !in s.db.dirs)
  }

  ghost predicate Inv(a: Cipher, s: System) {
    && Tables.Reachable(s.tables)
    && s.requests.Keys == s.uploads.Keys
    && s.tables.fileIds <= s.requests.Keys
    && (forall id :: id in s.requests ==> UploadInv(a, s, id))
  }

  /** What other requests do to the tables leaves a row alone or takes its directory too. */
  lemma RowStays(s: Tables.State, step: Tables.Step, id: Uuid, r: Request)
    requires Tables.Inv(s) && Tables.Enabled(s, step) && id in s.fileIds && RowKept(s, id, r)
    ensures RowKept(Tables.Next(s, step), id, r)
  {
    LaterNext(s, step);
  }

  /** An insert under an existing directory always goes through. */
  lemma RowInserted(s: Tables.State, id: Uuid, r: Request)
    requires Tables.Inv(s) && r.dir in s.db.dirs && id !in s.fileIds
    ensures Tables.Enabled(s, Inserting(id, r))
    ensures RowKept(Tables.Next(s, Inserting(id, r)), id, r)
    ensures Tables.Next(s, Inserting(id, r)).fileIds == s.fileIds + {id}
  {
  }

  lemma AdvanceSelf(a: Aead, s: System, id: Uuid, step: Upload.Step)
    requires Inv(a, s) && Enabled(s, Advance(id, step))
    ensures UploadInv(a, Next(a, s, Advance(id, step)), id)
  {
    var r := s.requests[id];
    assert UploadInv(a, s, id);
    Upload.Effects(a, r.base, r.source, r.end, s.uploads[id], step);
    if step == Upload.Create(true) {
      Tables.ReachableInv(s.tables);
      RowInserted(s.tables, id, r);
    }
  }

  lemma UploadFrame(a: Cipher, s: System, t: System, e: Uuid)
    requires e in s.requests && e in s.uploads && UploadInv(a, s, e)
    requires e in t.requests && t.requests[e] == s.requests[e]
    requires e in t.uploads && t.uploads[e] == s.uploads[e]
    requires var key := StorageKey(s.requests[e].user, e);
             key in s.objects ==> key in t.objects && t.objects[key] == s.objects[key]
    requires e in t.tables.fileIds <==> e in s.tables.fileIds
    requires e in s.tables.fileIds ==> RowKept(t.tables, e, s.requests[e])
    ensures UploadInv(a, t, e)
  {
  }

  lemma AdvanceOther(a: Cipher, s: System, id: Uuid, step: Upload.Step, e: Uuid)
    requires Inv(a, s) && Enabled(s, Advance(id, step)) && e != id && e in s.requests
    ensures UploadInv(a, Next(a, s, Advance(id, step)), e)
  {
    var r := s.requests[id];
    assert UploadInv(a, s, id) && UploadInv(a, s, e);
    StorageKeyInjective(r.user, id, s.requests[e].user, e);
    if step == Upload.Create(true) {
      Tables.ReachableInv(s.tables);
      RowInserted(s.tables, id, r);
      if e in s.tables.fileIds { RowStays(s.tables, Inserting(id, r), e, s.requests[e]); }
    }
    UploadFrame(a, s, Next(a, s, Advance(id, step)), e);
  }

  lemma AdvanceInv(a: Aead, s: System, id: Uuid, step: Upload.Step)
    requires Inv(a, s) && Enabled(s, Advance(id, step))
    ensures Inv(a, Next(a, s, Advance(id, step)))
  {
    var t := Next(a, s, Advance(id, step));
    AdvanceSelf(a, s, id, step);
    forall e | e in s.requests && e != id ensures UploadInv(a, t, e) { AdvanceOther(a, s, id, step, e); }
    if step == Upload.Create(true) {
      var tables := Tables.ReachableNext(s.tables, Inserting(id, s.requests[id]));
    }
  }

  lemma BeginInv(a: Cipher, s: System, id: Uuid, r: Request)
    requires Inv(a, s) && Enabled(s, Begin(id, r))
    ensures Inv(a, Next(a, s, Begin(id, r)))
  {
    var t := Next(a, s, Begin(id, r));
    Upload.StartReachable(a, r.base, r.source, r.end);
    forall e | e in t.requests ensures UploadInv(a, t, e) {
      if e != id {
        assert UploadInv(a, s, e);
        UploadFrame(a, s, t, e);
      }
    }
  }

  lemma TableStepInv(a: Cipher, s: System, step: Tables.Step)
    requires Inv(a, s) && Enabled(s, TableStep(step))
    ensures Inv(a, Next(a, s, TableStep(step)))
  {
    var t := Next(a, s, TableStep(step));
    var tables := Tables.ReachableNext(s.tables, step);
    Tables.ReachableInv(s.tables);
    forall e | e in t.requests ensures UploadInv(a, t, e) {
      assert UploadInv(a, s, e);
      if e in s.tables.fileIds { RowStays(s.tables, step, e, s.requests[e]); }
      UploadFrame(a, s, t, e);
    }
  }

  lemma NextInv(a: Aead, s: System, step: Step)
    requires Inv(a, s) && Enabled(s, step)
    ensures Inv(a, Next(a, s, step))
  {
    match step
    case Advance(id, inner) => AdvanceInv(a, s, id, inner);
    case Begin(id, r) => BeginInv(a, s, id, r);
    case TableStep(inner) => TableStepInv(a, s, inner);
  }

  lemma {:induction false} RunInv(a: Aead, s: System, steps: seq<Step>, t: System)
    requires Inv(a, s) && Run(a, s, steps, t)
    ensures Inv(a, t)
    decreases |steps|
  {
    if steps != [] {
      NextInv(a, s, steps[0]);
      RunInv(a, Next(a, s, steps[0]), steps[1..], t);
    }
  }

  lemma ReachableInv(a: Aead, s: System)
    requires Reachable(a, s)
    ensures Inv(a, s) && Tables.Inv(s.tables)
  {
    var steps :| Run(a, START, steps, s);
    assert Tables.Run(Tables.START, [], Tables.START);
    RunInv(a, START, steps, s);
    Tables.ReachableInv(s.tables);
  }

  /** Neither the forest nor the fresh id that a step asks for ever bars one: an upload can take
      each of its steps at any time, except inserting a row where its directory is gone, and all
      other requests can change the tables at any time. */
  lemma NothingBarred(a: Aead, s: System, id: Uuid)
    requires Reachable(a, s)
    ensures Forest(s.tables.db)
    ensures forall step :: id in s.uploads ==>
              (Enabled(s, Advance(id, step)) <==>
                 && id in s.requests && Upload.Enabled(s.uploads[id], step)
                 && (step == Upload.Create(true) ==> s.requests[id].dir in s.tables.db.dirs))
    ensures forall inner :: Enabled(s, TableStep(inner)) <==> Tables.Enabled(s.tables, inner) && !inner.AddFile?
    ensures id in s.uploads && Upload.Enabled(s.uploads[id], Upload.Create(true)) ==> id !in s.tables.fileIds
  {
    ReachableInv(a, s);
    if id in s.uploads && Upload.Enabled(s.uploads[id], Upload.Create(true)) {
      assert UploadInv(a, s, id);
      var r := s.requests[id];
      Upload.Effects(a, r.base, r.source, r.end, s.uploads[id], Upload.Create(true));
    }
  }

  /** Every row, in every reachable state, has at its key the complete container of what its
      upload's source delivered, and that source had ended cleanly. */
  lemma RowImpliesObject(a: Aead, s: System, id: Uuid)
    requires Reachable(a, s) && id in s.tables.db.files
    ensures id in s.requests && s.tables.db.files[id].(deleted := false) == RowOf(id, s.requests[id])
    ensures var key := s.tables.db.files[id].key;
            key in s.objects && s.objects[key] == Total(a, s.requests[id])
    ensures CleanEnd(s.requests[id].end)
  {
    ReachableInv(a, s);
    assert id in s.tables.fileIds;
    assert UploadInv(a, s, id);
    var r := s.requests[id];
    Upload.ResultChannel(a, r.base, r.source, r.end, s.uploads[id]);
    Upload.StoredIsComplete(a, r.base, r.source, r.end, s.uploads[id]);
  }

  /** A request that was told its file is saved has its row, as uploaded up to the deletion
      mark, for as long as the directory it was put in is there. */
  lemma SavedHasRow(a: Aead, s: System, id: Uuid)
    requires Reachable(a, s) && id in s.uploads && s.uploads[id].requester == Upload.Got(Upload.Saved)
    ensures id in s.requests
    ensures var r, db := s.requests[id], s.tables.db;
            if r.dir in db.dirs then id in db.files && db.files[id].(deleted := false) == RowOf(id, r)
            else id !in db.files
  {
    ReachableInv(a, s);
    assert UploadInv(a, s, id);
    var r := s.requests[id];
    Upload.ResultChannel(a, r.base, r.source, r.end, s.uploads[id]);
  }

  lemma {:induction false} RunSnoc(a: Cipher, s: System, steps: seq<Step>, t: System, step: Step)
    requires Run(a, s, steps, t) && Enabled(t, step)
    ensures Run(a, s, steps + [step], Next(a, t, step))
    decreases |steps|
  {
    if steps == [] {
      assert Run(a, Next(a, s, step), [], Next(a, t, step));
      assert ([] + [step])[1..] == [];
    } else {
      RunSnoc(a, Next(a, s, steps[0]), steps[1..], t, step);
      assert (steps + [step])[1..] == steps[1..] + [step];
    }
  }

  lemma ReachableNext(a: Cipher, s: System, step: Step) returns (t: System)
    requires Reachable(a, s) && Enabled(s, step)
    ensures t == Next(a, s, step) && Reachable(a, t)
  {
    var steps :| Run(a, START, steps, s);
    RunSnoc(a, START, steps, s, step);
    t := Next(a, s, step);
  }

  /** The row of upload `id` is as the upload has written it, if it has. */
  predicate Unmarked(s: System, id: Uuid) {
    id in s.tables.db.files ==> id in s.requests && s.tables.db.files[id] == RowOf(id, s.requests[id])
  }

  /** A run of one upload, with nobody else changing the tables. */
  lemma {:induction false} LiftRun(a: Aead, s: System, id: Uuid, steps: seq<Upload.Step>, u: Upload.State)
    returns (t: System)
    requires Reachable(a, s) && id in s.requests && id in s.uploads && Upload.Run(s.uploads[id], steps, u)
    requires s.requests[id].dir in s.tables.db.dirs && Unmarked(s, id)
    ensures Reachable(a, t) && id in t.uploads && t.uploads[id] == u
    ensures t.requests == s.requests && t.tables.db.dirs == s.tables.db.dirs && Unmarked(t, id)
    decreases |steps|
  {
    if steps == [] {
      t := s;
    } else {
      NothingBarred(a, s, id);
      t := ReachableNext(a, s, Advance(id, steps[0]));
      t := LiftRun(a, t, id, steps[1..], u);
    }
  }

  /** From every state, an upload into an existing directory whose source ends cleanly can be
      begun and end with the request told of success and its live row in the table. */
  lemma UploadSucceeds(a: Aead, s: System, id: Uuid, r: Request)
    requires Reachable(a, s) && id !in s.requests && SlashFree(r.user)
    requires (r.end == Eof || r.end == UnexpectedEof) && r.dir in s.tables.db.dirs
    ensures exists t :: Reachable(a, t) && id in t.uploads && t.uploads[id].requester == Upload.Got(Upload.Saved)
                        && id in t.requests && t.requests[id] == r
                        && id in t.tables.db.files && t.tables.db.files[id] == RowOf(id, r)
  {
    ReachableInv(a, s);
    var t := ReachableNext(a, s, Begin(id, r));
    Upload.CanSucceed(a, r.base, r.source, r.end);
    var u :| Upload.Reachable(a, r.base, r.source, r.end, u) && u.requester == Upload.Got(Upload.Saved);
    var steps :| Upload.Run(Upload.Start(a, r.base, r.source, r.end), steps, u);
    t := LiftRun(a, t, id, steps, u);
    SavedHasRow(a, t, id);
  }

  // ---- Download ----

  /** What a download of a stored object writes and returns. */
  datatype Transfer = Transfer(written: seq<byte>, err: Option<Error>)

  function CopyOut(data: seq<byte>, room: Option<nat>, end: End): Transfer {
    Transfer(Fit(data, room), if !Fits(data, room) then Some(WriteFailed) else if end == Eof then None else Some(end))
  }

  function DecryptOut(a: Cipher, data: seq<byte>, room: Option<nat>, end: End): Transfer {
    if |data| < NONCE_SIZE then Transfer([], ShortRead(|data|, NONCE_SIZE, end))
    else
      var opening := Open(a, data[..NONCE_SIZE], 0, data[NONCE_SIZE..]);
      Transfer(Fit(opening.plain, room), DecryptError(opening, room, end))
  }

  /** io.Copy: unlike the decryptor it takes only Eof for the end. */
  method Copy(dst: Writer, src: Reader) returns (err: Option<Error>)
    modifies dst, src
    ensures dst.contents == old(dst.contents) + CopyOut(old(src.data), old(dst.room), src.end).written
    ensures err == CopyOut(old(src.data), old(dst.room), src.end).err
    ensures old(dst.room) == None || |old(src.data)| <= old(dst.room).value ==>
              && dst.contents == old(dst.contents) + old(src.data)
              && err == if src.end == Eof then None else Some(src.end)
    ensures old(dst.room) != None && |old(src.data)| > old(dst.room).value ==>
              dst.contents == old(dst.contents) + old(src.data)[..old(dst.room).value] && err == Some(WriteFailed)
  {
    var buf := new byte[CHUNK];
    ghost var all, room, start := src.data, dst.room, dst.contents;
    ghost var done: seq<byte> := [];
    err := None;
    while true
      invariant err == None && all == done + src.data
      invariant Fits(done, room) && dst.room == Left(room, |done|)
      invariant dst.contents == start + done
      decreases src.Budget()
    {
      var n, readErr := src.Read(buf, 0);
      if n > 0 {
        ghost var piece, rest := buf[..n], src.data;
        assert all == done + (piece + rest) == done + piece + rest;
        FitMore(done, piece, rest, room);
        assert start + done + Fit(piece, dst.room) == start + (done + Fit(piece, dst.room));
        err := dst.Write(buf[..n]);
        if err.Some? { return; }
        assert done + piece == done + Fit(piece, Left(room, |done|));
        done := done + piece;
      }
      if readErr.Some? {
        if readErr != Some(Eof) { err := readErr; }
        break;
      }
    }
    assert done + [] == done;
  }

  datatype Answer = FileNotFound | Forbidden | Streamed(err: Option<Error>)

  class FileService {
    var db: Db
    var objects: map<string, seq<byte>>

    constructor (db: Db, objects: map<string, seq<byte>>)
      ensures this.db == db && this.objects == objects
    {
      this.db, this.objects := db, objects;
    }

    predicate Live(id: Uuid)
      reads this
    {
      id in db.files && !db.files[id].deleted
    }

    /** The storage client's reader: it splits the object at will and may break off. A missing
        object shows as a failing read. */
    method OpenObject(key: string, plan: seq<(nat, bool)>, end: End, missing: int) returns (r: Reader)
      ensures fresh(r)
      ensures key in objects ==> r.data == objects[key] && r.end == end
      ensures key !in objects ==> r.data == [] && r.end == SourceFailed(missing)
    {
      if key in objects {
        r := new Reader(objects[key], plan, end);
      } else {
        r := new Reader([], plan, SourceFailed(missing));
      }
    }

    /** Only the owner of a live file gets anything; a file recorded as not encrypted is
        copied as stored. */
    method Download(a: Aead, id: Uuid, user: Uuid, dst: Writer, plan: seq<(nat, bool)>, end: End, missing: int)
      returns (answer: Answer)
      modifies dst
      ensures answer == FileNotFound <==> !Live(id)
      ensures answer == Forbidden <==> Live(id) && db.files[id].user != user
      ensures !answer.Streamed? ==> unchanged(dst)
      ensures answer.Streamed? && db.files[id].key in objects ==>
                var data := objects[db.files[id].key];
                var out := if db.files[id].encrypted then DecryptOut(a, data, old(dst.room), end)
                           else CopyOut(data, old(dst.room), end);
                && dst.contents == old(dst.contents) + out.written && answer.err == out.err
                && (old(dst.room) == None && !db.files[id].encrypted ==>
                      answer.err == if end == Eof then None else Some(end))
                && (old(dst.room) == None && db.files[id].encrypted && |data| < NONCE_SIZE ==>
                      answer.err == Some(if data != [] && end == Eof then UnexpectedEof else end))
                && (old(dst.room) == None && db.files[id].encrypted && |data| >= NONCE_SIZE ==>
                      var opening := Open(a, data[..NONCE_SIZE], 0, data[NONCE_SIZE..]);
                      answer.err == if !opening.accepted then Some(AuthFailed)
                                    else if end == Eof || end == UnexpectedEof then None else Some(end))
      ensures answer.Streamed? && db.files[id].key !in objects ==>
                dst.contents == old(dst.contents) && answer.err == Some(SourceFailed(missing))
    {
      if id !in db.files || db.files[id].deleted { return FileNotFound; }
      var file := db.files[id];
      if file.user != user { return Forbidden; }
      var src := OpenObject(file.key, plan, end, missing);
      var err;
      if file.encrypted {
        err := DecryptStream(a, dst, src);
      } else {
        err := Copy(dst, src);
      }
      answer := Streamed(err);
    }

    /** Delete reads the row, and its UPDATE then finds the tables as other requests have left
        them in `between`; a file that is gone or deleted by then is not found. The object is
        left alone. */
    method Delete(id: Uuid, user: Uuid, between: Db) returns (answer: Answer)
      modifies this
      ensures objects == old(objects)
      ensures answer == Forbidden <==> old(Live(id)) && old(db).files[id].user != user
      ensures answer == FileNotFound <==>
                || !old(Live(id))
                || (old(db).files[id].user == user
                    && !(id in between.files && between.files[id].user == user && !between.files[id].deleted))
      ensures answer.Streamed? ==>
                && answer.err == None && !Live(id) && id in between.files
                && db == between.(files := between.files[id := between.files[id].(deleted := true)])
      ensures !answer.Streamed? ==>
                db == if old(Live(id)) && old(db).files[id].user == user then between else old(db)
    {
      if id !in db.files || db.files[id].deleted { return FileNotFound; }
      if db.files[id].user != user { return Forbidden; }
      db := between;
      var updated := SoftDeleteFile(db, id, user);
      if updated.None? { return FileNotFound; }
      db := updated.value;
      answer := Streamed(None);
    }
  }

  /** Downloading any row of any reachable state from storage that answers to the end gives
      the uploaded bytes if the upload asked for encryption, and otherwise the container
      itself, because the upload job encrypts in both cases. */
  lemma DownloadReturnsUpload(a: Aead, s: System, id: Uuid)
    requires Reachable(a, s) && id in s.tables.db.files
    ensures s.tables.db.files[id].key in s.objects && id in s.requests
    ensures var r, data := s.requests[id], s.objects[s.tables.db.files[id].key];
            && (s.tables.db.files[id].encrypted <==> r.encrypt)
            && DecryptOut(a, data, None, Eof) == Transfer(r.source, None)
            && CopyOut(data, None, Eof) == Transfer(Encrypted(a, r.base, r.source), None)
            && |data| == |r.source| + 12 + 16 * ((|r.source| + 32767) / 32768)
  {
    RowImpliesObject(a, s, id);
    var r := s.requests[id];
    var data := Encrypted(a, r.base, r.source);
    assert data[..NONCE_SIZE] == r.base && data[NONCE_SIZE..] == Body(a, r.base, 0, r.source);
    OpenBody(a, r.base, 0, r.source);
    ContainerLength(a, r.base, r.source);
  }

  /** Whoever owns a live file of a reachable state, downloads it from storage that answers to
      the end and takes everything, gets the uploaded bytes exactly if the upload asked for
      encryption. */
  method DownloadUploaded(a: Aead, ghost s: System, service: FileService, id: Uuid, dst: Writer, plan: seq<(nat, bool)>)
    returns (answer: Answer)
    requires Reachable(a, s) && service.db == s.tables.db && service.objects == s.objects
    requires service.Live(id) && dst.room == None
    modifies dst
    ensures answer == Streamed(None) && id in s.requests
    ensures var r := s.requests[id];
            && service.db.files[id].user == r.user
            && (dst.contents == old(dst.contents) + r.source <==> r.encrypt)
            && (!r.encrypt ==> dst.contents == old(dst.contents) + Encrypted(a, r.base, r.source))
  {
    DownloadReturnsUpload(a, s, id);
    RowImpliesObject(a, s, id);
    answer := service.Download(a, id, service.db.files[id].user, dst, plan, Eof, 0);
    ghost var before, r := old(dst.contents), s.requests[id];
    if !r.encrypt {
      assert |before + r.source| < |before + Encrypted(a, r.base, r.source)|;
    }
  }
}
