/** One upload: the goroutine that encrypts into a pipe, the storage client that reads the
    pipe, the worker running the job, and the request that waits for the result channel or
    gives up. Every step below is atomic; a run is any interleaving of them. */
module Upload {
  import opened Bytes
  import opened Nonce
  import opened Container
  import opened Streams

  datatype Encoder = Running | Failing(error: Error) | Closing | Gone
  datatype Storage = Reading | Stored | Broken
  datatype Outcome = Saved | UploadFailed | CreateFailed
  datatype Job = Uploading | Creating | Sending(value: Outcome, last: bool) | Finished
  datatype Requester = Waiting | Got(value: Outcome) | Cancelled

  datatype State = State(
    todo: seq<seq<byte>>,      // writes the encryptor still has to make
    result: Option<Error>,     // what Encrypt returns after them
    encoder: Encoder,
    pending: seq<byte>,        // unread part of the write in progress
    closed: Option<Error>,     // what the pipe's read side reports once drained
    received: seq<byte>,       // what the storage client has read
    storage: Storage,
    blob: Option<seq<byte>>, // the stored object
    job: Job,
    created: Option<bool>,     // whether the files row was inserted
    channel: seq<Outcome>,     // the result channel, of capacity 1
    sent: seq<Outcome>,        // every value ever sent on it
    requester: Requester)

  datatype Step =
    | WriteNext | EncryptReturns | CloseWithError | DeferredClose
    | Read(max: nat) | SeeEnd | StorageFails
    | UploadReturns | Create(ok: bool) | Send
    | Receive | Cancel

  /** The encryptor is given nonce `base` and a source delivering p and then ending with `end`. */
  function Start(a: Cipher, base: NonceBytes, p: seq<byte>, end: End): State {
    State(EncryptWrites(a, base, p), EncryptError(Encrypted(a, base, p), None, end), Running,
          [], None, [], Reading, None, Uploading, None, [], [], Waiting)
  }

  predicate Enabled(s: State, step: Step) {
    match step
    case WriteNext => s.encoder == Running && s.pending == [] && s.todo != []
    case EncryptReturns => s.encoder == Running && s.pending == [] && s.todo == []
    case CloseWithError => s.encoder.Failing?
    case DeferredClose => s.encoder == Closing
    case Read(max) => s.storage == Reading && s.pending != [] && max > 0
    case SeeEnd => s.storage == Reading && s.pending == [] && s.closed.Some?
    case StorageFails => s.storage == Reading
    case UploadReturns => s.job == Uploading && s.storage != Reading
    case Create(_) => s.job == Creating
    case Send => s.job.Sending? && s.channel == []
    case Receive => s.requester == Waiting && s.channel != []
    case Cancel => s.requester == Waiting
  }

  function Next(s: State, step: Step): State
    requires Enabled(s, step)
  {
    match step
    case WriteNext => s.(pending := s.todo[0], todo := s.todo[1..])
    case EncryptReturns => s.(encoder := if s.result.Some? then Failing(s.result.value) else Closing)
    case CloseWithError => s.(closed := FirstClose(s.closed, s.encoder.error), encoder := Closing)
    case DeferredClose => s.(closed := FirstClose(s.closed, Eof), encoder := Gone)
    case Read(max) =>
      var n := Min(max, |s.pending|);
      s.(received := s.received + s.pending[..n], pending := s.pending[n..])
    case SeeEnd =>
      var complete := s.closed == Some(Eof);
      s.(storage := if complete then Stored else Broken, blob := if complete then Some(s.received) else None)
    case StorageFails => s.(storage := Broken)
    case UploadReturns => s.(job := if s.storage == Stored then Creating else Sending(UploadFailed, true))
    case Create(ok) => s.(created := Some(ok), job := if ok then Sending(Saved, true) else Sending(CreateFailed, false))
    case Send =>
      s.(channel := [s.job.value], sent := s.sent + [s.job.value],
         job := if s.job.last then Finished else Sending(s.job.value, true))
    case Receive => s.(channel := s.channel[1..], requester := Got(s.channel[0]))
    case Cancel => s.(requester := Cancelled)
  }

  /** The first close of a pipe decides what its reader sees. */
  function FirstClose(closed: Option<Error>, e: Error): Option<Error> {
    if closed.Some? then closed else Some(e)
  }

  ghost predicate Run(s: State, steps: seq<Step>, t: State)
    decreases |steps|
  {
    if steps == [] then s == t
    else Enabled(s, steps[0]) && Run(Next(s, steps[0]), steps[1..], t)
  }

  ghost predicate Reachable(a: Cipher, base: NonceBytes, p: seq<byte>, end: End, s: State) {
    exists steps :: Run(Start(a, base, p, end), steps, s)
  }

  // ---- The invariant ----

  /** Bytes are neither lost nor invented between the encryptor and the storage client. */
  ghost predicate PipeInv(s: State, total: seq<byte>) {
    && s.received + (s.pending + Flatten(s.todo)) == total
    && (forall w :: w in s.todo ==> w != [])
    && (s.encoder != Running ==> s.todo == [] && s.pending == [])
    && (s.blob.Some? <==> s.storage == Stored)
    && (s.storage == Stored ==> s.blob == Some(total) && s.result == None && s.encoder == Gone)
  }

  ghost predicate CloseInv(s: State) {
    && s.result != Some(Eof)
    && (s.encoder == Running ==> s.closed == None)
    && (s.encoder.Failing? ==> s.closed == None && s.result == Some(s.encoder.error))
    && (s.encoder == Closing ==> s.closed == s.result)
    && (s.encoder == Gone ==> s.closed == if s.result.Some? then s.result else Some(Eof))
  }

  /** The values the job has sent by now, and where its row and object stand. */
  ghost predicate JobInv(s: State) {
    && |s.channel| <= 1
    && (s.created == Some(true) ==> s.storage == Stored)
    && (match s.job
        case Uploading => s.sent == [] && s.created == None
        case Creating => s.sent == [] && s.created == None && s.storage == Stored
        case Sending(v, last) =>
          if v == CreateFailed
          then s.created == Some(false) && s.storage == Stored && s.sent == if last then [v] else []
          else s.sent == [] && last && Explains(s, v)
        case Finished =>
          || (s.sent == [CreateFailed, CreateFailed] && s.created == Some(false) && s.storage == Stored)
          || (s.sent == [Saved] && Explains(s, Saved))
          || (s.sent == [UploadFailed] && Explains(s, UploadFailed)))
    && (match s.requester
        case Got(v) => v in s.sent && (s.channel == [] || |s.sent| == 2)
        case _ => s.channel == s.sent)
  }

  predicate Explains(s: State, v: Outcome) {
    match v
    case Saved => s.created == Some(true)
    case UploadFailed => s.created == None && s.storage == Broken
    case CreateFailed => s.created == Some(false)
  }

  ghost predicate Inv(s: State, total: seq<byte>) {
    PipeInv(s, total) && CloseInv(s) && JobInv(s)
  }

  lemma StartInv(a: Aead, base: NonceBytes, p: seq<byte>, end: End)
    ensures Inv(Start(a, base, p, end), Encrypted(a, base, p))
  {
    var s := Start(a, base, p, end);
    WritesFlatten(a, base, p);
    assert [] + ([] + Flatten(s.todo)) == Flatten(s.todo);
    SealedNonEmpty(a, base, 0, p);
  }

  lemma {:induction false} SealedNonEmpty(a: Aead, base: NonceBytes, k: nat, p: seq<byte>)
    ensures forall w :: w in Sealed(a, base, k, p) ==> w != []
    decreases |p|
  {
    if p != [] {
      SealedNonEmpty(a, base, k + 1, Rest(p));
      assert |a.seal(NonceOf(base, k), Head(p))| > 0;
    }
  }

  lemma NextPipe(s: State, total: seq<byte>, step: Step)
    requires PipeInv(s, total) && CloseInv(s) && Enabled(s, step)
    ensures PipeInv(Next(s, step), total)
  {
    match step
    case WriteNext =>
      assert [] + (s.todo[0] + Flatten(s.todo[1..])) == [] + Flatten(s.todo);
    case Read(max) =>
      var n := Min(max, |s.pending|);
      assert s.pending == s.pending[..n] + s.pending[n..];
      assert s.received + s.pending[..n] + (s.pending[n..] + Flatten(s.todo))
          == s.received + (s.pending + Flatten(s.todo));
    case SeeEnd =>
      assert s.received + ([] + []) == s.received;
    case _ =>
  }

  lemma NextClose(s: State, total: seq<byte>, step: Step)
    requires PipeInv(s, total) && CloseInv(s) && Enabled(s, step)
    ensures CloseInv(Next(s, step))
  {
  }

  lemma NextJob(s: State, step: Step)
    requires JobInv(s) && Enabled(s, step)
    ensures JobInv(Next(s, step))
  {
  }

  lemma NextInv(s: State, total: seq<byte>, step: Step)
    requires Inv(s, total) && Enabled(s, step)
    ensures Inv(Next(s, step), total)
  {
    NextPipe(s, total, step);
    NextClose(s, total, step);
    NextJob(s, step);
  }

  lemma {:induction false} RunInv(s: State, steps: seq<Step>, t: State, total: seq<byte>)
    requires Inv(s, total) && Run(s, steps, t)
    ensures Inv(t, total)
    decreases |steps|
  {
    if steps != [] {
      NextInv(s, total, steps[0]);
      RunInv(Next(s, steps[0]), steps[1..], t, total);
    }
  }

  lemma ReachableInv(a: Aead, base: NonceBytes, p: seq<byte>, end: End, s: State)
    requires Reachable(a, base, p, end, s)
    ensures Inv(s, Encrypted(a, base, p))
    ensures s.result == EncryptError(Encrypted(a, base, p), None, end)
  {
    var steps :| Run(Start(a, base, p, end), steps, s);
    StartInv(a, base, p, end);
    RunInv(Start(a, base, p, end), steps, s, Encrypted(a, base, p));
    RunKeepsResult(Start(a, base, p, end), steps, s);
  }

  lemma {:induction false} RunKeepsResult(s: State, steps: seq<Step>, t: State)
    requires Run(s, steps, t)
    ensures t.result == s.result
    decreases |steps|
  {
    if steps != [] {
      RunKeepsResult(Next(s, steps[0]), steps[1..], t);
    }
  }

  // ---- What holds in every reachable state ----

  /** The storage client always holds a prefix of the container, and it ends with a stored
      object only after reading the whole container of everything the source delivered. An
      encryption error is never seen as an end of stream. */
  lemma StoredIsComplete(a: Aead, base: NonceBytes, p: seq<byte>, end: End, s: State)
    requires Reachable(a, base, p, end, s)
    ensures s.received <= Encrypted(a, base, p)
    ensures s.storage == Stored ==> s.blob == Some(Encrypted(a, base, p)) && CleanEnd(end)
    ensures s.blob.Some? ==> s.storage == Stored
    ensures s.closed == Some(Eof) ==> s.received == Encrypted(a, base, p) && CleanEnd(end)
    ensures s.closed.Some? && !CleanEnd(end) ==> s.closed == Some(end)
  {
    ReachableInv(a, base, p, end, s);
    if s.closed == Some(Eof) {
      assert s.received + ([] + []) == s.received;
    }
  }

  /** The job sends at most two values, a second one only after a failure; the request sees
      the first, and when it reports success the row exists and the object is complete. */
  lemma ResultChannel(a: Aead, base: NonceBytes, p: seq<byte>, end: End, s: State)
    requires Reachable(a, base, p, end, s)
    ensures |s.sent| <= 2 && (|s.sent| == 2 ==> s.sent[0] != Saved)
    ensures s.requester.Got? ==> s.sent != [] && s.requester.value == s.sent[0]
    ensures s.requester == Got(Saved) ==> s.created == Some(true)
    ensures s.created == Some(true) ==> s.blob == Some(Encrypted(a, base, p))
    ensures s.requester == Got(CreateFailed) ==> s.created == Some(false)
    ensures s.requester == Got(UploadFailed) ==> s.created == None && s.blob == None
  {
    ReachableInv(a, base, p, end, s);
  }

  /** A storage client that reads to the end stores the whole container exactly when the source
      ended cleanly, and nothing otherwise. */
  lemma StoredExactly(a: Aead, base: NonceBytes, p: seq<byte>, end: End, s: State)
    requires Reachable(a, base, p, end, s) && Enabled(s, SeeEnd)
    ensures Next(s, SeeEnd).storage == if end == Eof || end == UnexpectedEof then Stored else Broken
    ensures Next(s, SeeEnd).blob == if end == Eof || end == UnexpectedEof then Some(Encrypted(a, base, p)) else None
  {
    ReachableInv(a, base, p, end, s);
    StoredIsComplete(a, base, p, end, s);
  }

  /** Nothing the surroundings may do is held up by anybody else: a waiting request can give up
      at any time and receives the first value once one was sent, the storage client can fail
      while it reads, and the insert can go either way. */
  lemma SurroundingsAreFree(a: Aead, base: NonceBytes, p: seq<byte>, end: End, s: State, ok: bool)
    requires Reachable(a, base, p, end, s)
    ensures Enabled(s, Cancel) <==> s.requester == Waiting
    ensures Enabled(s, Receive) <==> s.requester == Waiting && s.sent != []
    ensures Enabled(s, Receive) ==> Next(s, Receive).requester == Got(s.sent[0])
    ensures Enabled(s, StorageFails) <==> s.storage == Reading
    ensures Enabled(s, Create(ok)) <==> s.job == Creating
    ensures Enabled(s, Create(ok)) ==> Next(s, Create(ok)).created == Some(ok)
  {
    ReachableInv(a, base, p, end, s);
  }

  // ---- How runs end ----

  ghost predicate Quiescent(s: State) {
    forall step :: !Enabled(s, step)
  }

  lemma EncryptorAtRest(s: State, total: seq<byte>)
    requires PipeInv(s, total) && Quiescent(s)
    ensures s.storage != Reading
    ensures s.encoder != Gone <==> s.received != total
    ensures s.encoder != Gone ==> s.storage == Broken && s.received <= total
  {
    assert !Enabled(s, WriteNext) && !Enabled(s, EncryptReturns) && !Enabled(s, CloseWithError);
    assert !Enabled(s, DeferredClose) && !Enabled(s, StorageFails);
    assert s.received + ([] + []) == s.received;
  }

  lemma WorkerAtRest(s: State)
    requires JobInv(s) && Quiescent(s)
    ensures s.requester != Waiting
    ensures s.job != Finished <==> s.requester == Cancelled && s.storage == Stored && s.created == Some(false)
  {
    assert !Enabled(s, StorageFails) && !Enabled(s, UploadReturns) && !Enabled(s, Create(true));
    assert !Enabled(s, Send) && !Enabled(s, Receive) && !Enabled(s, Cancel);
  }

  /** When nothing can move any more, the request has its answer or was cancelled. The worker
      is still blocked on the channel exactly when the request was cancelled, the object was
      stored and the row was refused. The encrypting goroutine is still blocked exactly when
      the storage client stopped before it had read the whole container. */
  lemma QuiescentExactly(a: Aead, base: NonceBytes, p: seq<byte>, end: End, s: State)
    requires Reachable(a, base, p, end, s) && Quiescent(s)
    ensures s.requester != Waiting
    ensures s.job != Finished <==> s.requester == Cancelled && s.storage == Stored && s.created == Some(false)
    ensures s.encoder != Gone <==> s.received != Encrypted(a, base, p)
    ensures s.encoder != Gone ==> s.storage == Broken && s.received < Encrypted(a, base, p)
  {
    ReachableInv(a, base, p, end, s);
    EncryptorAtRest(s, Encrypted(a, base, p));
    WorkerAtRest(s);
  }

  /** At rest, a request that was not cancelled knows what happened: saved if and only if the
      row was inserted, and an unclean source never ends that way. */
  lemma AnswerAtRest(a: Aead, base: NonceBytes, p: seq<byte>, end: End, s: State)
    requires Reachable(a, base, p, end, s) && Quiescent(s) && s.requester != Cancelled
    ensures s.requester == Got(Saved) <==> s.created == Some(true)
    ensures s.requester == Got(CreateFailed) <==> s.created == Some(false)
    ensures s.requester == Got(UploadFailed) <==> s.storage == Broken
    ensures s.requester.Got? && (end != Eof && end != UnexpectedEof ==> s.requester == Got(UploadFailed))
  {
    ReachableInv(a, base, p, end, s);
    EncryptorAtRest(s, Encrypted(a, base, p));
    WorkerAtRest(s);
  }

  function TotalBytes(ws: seq<seq<byte>>): nat {
    if ws == [] then 0 else |ws[0]| + TotalBytes(ws[1..])
  }

  function EncoderRank(e: Encoder): nat {
    match e case Running => 3 case Failing(_) => 2 case Closing => 1 case Gone => 0
  }

  function JobRank(j: Job): nat {
    match j case Uploading => 7 case Creating => 6 case Sending(_, last) => (if last then 2 else 4) case Finished => 0
  }

  /** Bounds the number of steps a run can still take. */
  function Measure(s: State): nat {
    TotalBytes(s.todo) + |s.todo| + |s.pending| + EncoderRank(s.encoder)
    + (if s.storage == Reading then 1 else 0) + JobRank(s.job) + |s.channel|
    + (if s.requester == Waiting then 1 else 0)
  }

  lemma NextDecreases(s: State, step: Step)
    requires Enabled(s, step) && |s.channel| <= 1
    ensures Measure(Next(s, step)) < Measure(s)
  {
  }

  /** Every run is finite: its length is bounded by the measure of its first state. */
  lemma {:induction false} RunsEnd(s: State, steps: seq<Step>, t: State, total: seq<byte>)
    requires Inv(s, total) && Run(s, steps, t)
    ensures |steps| + Measure(t) <= Measure(s)
    decreases |steps|
  {
    if steps != [] {
      NextInv(s, total, steps[0]);
      NextDecreases(s, steps[0]);
      RunsEnd(Next(s, steps[0]), steps[1..], t, total);
    }
  }

  // ---- Both ways of blocking do occur ----

  lemma {:induction false} RunSnoc(s: State, steps: seq<Step>, t: State, step: Step)
    requires Run(s, steps, t) && Enabled(t, step)
    ensures Run(s, steps + [step], Next(t, step))
    decreases |steps|
  {
    if steps == [] {
      assert Run(Next(s, step), [], Next(t, step));
      assert ([] + [step])[1..] == [];
    } else {
      RunSnoc(Next(s, steps[0]), steps[1..], t, step);
      assert (steps + [step])[1..] == steps[1..] + [step];
    }
  }

  lemma ReachableNext(a: Cipher, base: NonceBytes, p: seq<byte>, end: End, s: State, step: Step) returns (t: State)
    requires Reachable(a, base, p, end, s) && Enabled(s, step)
    ensures t == Next(s, step) && Reachable(a, base, p, end, t)
  {
    var steps :| Run(Start(a, base, p, end), steps, s);
    RunSnoc(Start(a, base, p, end), steps, s, step);
    t := Next(s, step);
  }

  /** The object appears at the end of stream and the row at a successful insert, both once. */
  lemma Effects(a: Aead, base: NonceBytes, p: seq<byte>, end: End, s: State, step: Step)
    requires Reachable(a, base, p, end, s) && Enabled(s, step)
    ensures Reachable(a, base, p, end, Next(s, step))
    ensures step != SeeEnd ==> Next(s, step).blob == s.blob
    ensures step == SeeEnd ==> s.blob == None
    ensures Next(s, step).created == Some(true) <==> s.created == Some(true) || step == Create(true)
    ensures step == Create(true) ==> s.created == None
  {
    ReachableInv(a, base, p, end, s);
    var t := ReachableNext(a, base, p, end, s, step);
  }

  lemma StartReachable(a: Cipher, base: NonceBytes, p: seq<byte>, end: End)
    ensures Reachable(a, base, p, end, Start(a, base, p, end))
  {
    assert Run(Start(a, base, p, end), [], Start(a, base, p, end));
  }

  lemma ReadFirst(a: Aead, base: NonceBytes, p: seq<byte>, end: End, s: State) returns (t: State)
    requires Reachable(a, base, p, end, s) && s.todo != []
    requires s.encoder == Running && s.pending == [] && s.storage == Reading
    ensures Reachable(a, base, p, end, t) && t == s.(todo := s.todo[1..], received := s.received + s.todo[0])
  {
    var first := s.todo[0];
    ReachableInv(a, base, p, end, s);
    assert first in s.todo;
    t := ReachableNext(a, base, p, end, s, WriteNext);
    t := ReachableNext(a, base, p, end, t, Read(|first|));
    assert first[..|first|] == first && first[|first|..] == [];
  }

  /** The storage client reads every write as it comes. */
  lemma {:induction false} Drain(a: Aead, base: NonceBytes, p: seq<byte>, end: End, s: State) returns (t: State)
    requires Reachable(a, base, p, end, s) && s.encoder == Running && s.pending == [] && s.storage == Reading
    ensures Reachable(a, base, p, end, t)
    ensures t == s.(todo := [], received := s.received + Flatten(s.todo))
    decreases |s.todo|
  {
    if s.todo == [] {
      t := s;
      assert s.received + [] == s.received;
    } else {
      var first, rest := s.todo[0], s.todo[1..];
      t := ReadFirst(a, base, p, end, s);
      t := Drain(a, base, p, end, t);
      assert s.received + first + Flatten(rest) == s.received + (first + Flatten(rest));
    }
  }

  /** Whatever the file, a source that ends cleanly can be stored. */
  lemma CanBeStored(a: Aead, base: NonceBytes, p: seq<byte>, end: End) returns (s: State)
    requires CleanEnd(end)
    ensures Reachable(a, base, p, end, s)
    ensures var total := Encrypted(a, base, p);
            s == State([], None, Gone, [], Some(Eof), total, Stored, Some(total), Uploading, None, [], [], Waiting)
  {
    var total := Encrypted(a, base, p);
    s := Start(a, base, p, end);
    StartReachable(a, base, p, end);
    WritesFlatten(a, base, p);
    s := Drain(a, base, p, end, s);
    assert s.received == [] + total == total;
    s := ReachableNext(a, base, p, end, s, EncryptReturns);
    s := ReachableNext(a, base, p, end, s, DeferredClose);
    s := ReachableNext(a, base, p, end, s, SeeEnd);
  }

  /** Whatever the file, if its source ends cleanly the upload can end with the request told
      of success, the row inserted and the complete object stored. */
  lemma CanSucceed(a: Aead, base: NonceBytes, p: seq<byte>, end: End)
    requires CleanEnd(end)
    ensures exists s :: Reachable(a, base, p, end, s) && Quiescent(s) && s.requester == Got(Saved)
                        && s.created == Some(true) && s.blob == Some(Encrypted(a, base, p))
  {
    var s := CanBeStored(a, base, p, end);
    s := ReachableNext(a, base, p, end, s, UploadReturns);
    s := ReachableNext(a, base, p, end, s, Create(true));
    s := ReachableNext(a, base, p, end, s, Send);
    s := ReachableNext(a, base, p, end, s, Receive);
    assert Quiescent(s);
  }

  /** Or with the request told that the row was refused, and the worker free again. */
  lemma CanBeRefused(a: Aead, base: NonceBytes, p: seq<byte>, end: End)
    requires CleanEnd(end)
    ensures exists s :: Reachable(a, base, p, end, s) && Quiescent(s) && s.requester == Got(CreateFailed)
                        && s.created == Some(false) && s.job == Finished
  {
    var s := CanBeStored(a, base, p, end);
    s := ReachableNext(a, base, p, end, s, UploadReturns);
    s := ReachableNext(a, base, p, end, s, Create(false));
    s := ReachableNext(a, base, p, end, s, Send);
    s := ReachableNext(a, base, p, end, s, Receive);
    s := ReachableNext(a, base, p, end, s, Send);
    assert Quiescent(s);
  }

  /** For every file whose source ends cleanly. */
  lemma WorkerCanBlock(a: Aead, base: NonceBytes, p: seq<byte>, end: End)
    requires CleanEnd(end)
    ensures exists s :: Reachable(a, base, p, end, s) && Quiescent(s) && s.job != Finished
  {
    var s := CanBeStored(a, base, p, end);
    s := ReachableNext(a, base, p, end, s, UploadReturns);
    s := ReachableNext(a, base, p, end, s, Create(false));
    s := ReachableNext(a, base, p, end, s, Cancel);
    s := ReachableNext(a, base, p, end, s, Send);
    assert Quiescent(s);
  }

  /** For every file and every end of its source. */
  lemma EncryptorCanBlock(a: Cipher, base: NonceBytes, p: seq<byte>, end: End)
    ensures exists s :: Reachable(a, base, p, end, s) && Quiescent(s) && s.encoder != Gone
                        && s.requester == Got(UploadFailed)
  {
    var s := Start(a, base, p, end);
    StartReachable(a, base, p, end);
    s := ReachableNext(a, base, p, end, s, WriteNext);
    s := ReachableNext(a, base, p, end, s, StorageFails);
    s := ReachableNext(a, base, p, end, s, UploadReturns);
    s := ReachableNext(a, base, p, end, s, Send);
    s := ReachableNext(a, base, p, end, s, Receive);
    assert Quiescent(s);
  }
}
