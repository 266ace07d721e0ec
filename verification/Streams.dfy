/** Streaming encryption and decryption over readers that split their data at will
    and writers that may stop accepting it. */
module Streams {
  import opened Bytes
  import opened Nonce
  import opened Container

  datatype Error = Eof | UnexpectedEof | SourceFailed(code: int) | WriteFailed | AuthFailed

  /** How a source ends: after its last byte it keeps answering with this error. */
  type End = e: Error | e.Eof? || e.UnexpectedEof? || e.SourceFailed? witness Eof

  /** An io.Reader. `plan` decides how many bytes each Read hands over (possibly none) and
      whether the end is reported together with the last bytes or by a later call. */
  class Reader {
    var data: seq<byte>
    var plan: seq<(nat, bool)>
    const end: End

    constructor (data: seq<byte>, plan: seq<(nat, bool)>, end: End)
      ensures this.data == data && this.plan == plan && this.end == end
    {
      this.data, this.plan, this.end := data, plan, end;
    }

    ghost function Budget(): nat
      reads this
    {
      |plan| + |data|
    }

    /** One Read call into buf[from..]. */
    method Read(buf: array<byte>, from: nat) returns (n: nat, err: Option<Error>)
      requires from < buf.Length
      modifies this, buf
      ensures n <= |old(data)| && from + n <= buf.Length
      ensures old(plan) != [] ==> n == Min(Min(old(plan)[0].0, |old(data)|), buf.Length - from)
      ensures data == old(data)[n..]
      ensures buf[..from] == old(buf[..from]) && buf[from..from + n] == old(data)[..n]
      ensures err.Some? ==> err.value == end && data == []
      ensures err.None? ==> Budget() < old(Budget())
    {
      var asked, eager := if plan == [] then |data| else plan[0].0, plan == [] || plan[0].1;
      n := Min(Min(asked, |data|), buf.Length - from);
      forall i | 0 <= i < n { buf[from + i] := data[i]; }
      data := data[n..];
      err := if data == [] && eager then Some(end) else None;
      plan := if plan == [] then [] else plan[1..];
    }
  }

  /** The error ReadFull reports after finding `have` of `want` bytes before the source's end. */
  function ShortRead(have: nat, want: nat, end: End): Option<Error> {
    if have >= want then None
    else if have > 0 && end == Eof then Some(UnexpectedEof)
    else Some(end)
  }

  /** io.ReadFull: fill buf from src, calling Read until it is full or the source ends. */
  method ReadFull(src: Reader, buf: array<byte>) returns (n: nat, err: Option<Error>)
    requires buf.Length > 0
    modifies src, buf
    ensures n == Min(buf.Length, |old(src.data)|)
    ensures buf[..n] == old(src.data)[..n] && src.data == old(src.data)[n..]
    ensures err == ShortRead(n, buf.Length, src.end)
    ensures err == None <==> |old(src.data)| >= buf.Length
    ensures err.Some? && (old(src.data) == [] || src.end != Eof) ==> err.value == src.end
    ensures err.Some? && old(src.data) != [] && src.end == Eof ==> err.value == UnexpectedEof
  {
    n, err := 0, None;
    while n < buf.Length && err.None?
      invariant n <= buf.Length && n <= |old(src.data)|
      invariant buf[..n] == old(src.data)[..n] && src.data == old(src.data)[n..]
      invariant err.Some? ==> err.value == src.end && src.data == []
      decreases err.None?, src.Budget()
    {
      ghost var before := n;
      var got;
      got, err := src.Read(buf, n);
      n := n + got;
      assert buf[..n] == buf[..before] + buf[before..n];
    }
    if n >= buf.Length {
      err := None;
    } else if n > 0 && err == Some(Eof) {
      err := Some(UnexpectedEof);
    }
  }

  /** An io.Writer. It takes at most `room` more bytes, the part of a write that fits
      included, and fails from then on; `calls` records what each Write was given. */
  class Writer {
    var contents: seq<byte>
    var calls: seq<seq<byte>>
    var room: Option<nat>

    constructor (room: Option<nat>)
      ensures contents == [] && calls == [] && this.room == room
    {
      contents, calls, this.room := [], [], room;
    }

    method Write(p: seq<byte>) returns (err: Option<Error>)
      modifies this
      ensures calls == old(calls) + [p]
      ensures contents == old(contents) + Fit(p, old(room))
      ensures room == Left(old(room), |p|)
      ensures err == if Fits(p, old(room)) then None else Some(WriteFailed)
      ensures err == None ==> contents == old(contents) + p
      ensures err == None <==> old(room) == None || |p| <= old(room).value
      ensures err != None ==> contents == old(contents) + p[..old(room).value] && room == Some(0)
    {
      calls := calls + [p];
      contents := contents + Fit(p, room);
      err := if Fits(p, room) then None else Some(WriteFailed);
      room := Left(room, |p|);
    }
  }

  function Left(room: Option<nat>, n: nat): Option<nat> {
    match room
    case None => None
    case Some(r) => Some(if n <= r then r - n else 0)
  }

  /** One more write after `done` went through: it fits exactly when all of it together fits,
      and if it does not, nothing behind it matters. */
  lemma FitMore(done: seq<byte>, more: seq<byte>, rest: seq<byte>, room: Option<nat>)
    requires Fits(done, room)
    ensures Fits(done + more, room) <==> Fits(more, Left(room, |done|))
    ensures Left(room, |done + more|) == Left(Left(room, |done|), |more|)
    ensures !Fits(done + more, room) ==>
              && !Fits(done + (more + rest), room)
              && Fit(done + (more + rest), room) == done + Fit(more, Left(room, |done|))
  {
  }

  lemma FitConcat(s: seq<byte>, t: seq<byte>, room: Option<nat>)
    ensures Fits(s + t, room) <==> Fits(s, room) && Fits(t, Left(room, |s|))
    ensures Fit(s + t, room) == if Fits(s, room) then s + Fit(t, Left(room, |s|)) else Fit(s, room)
  {
  }

  /** A source that ended by Eof or by UnexpectedEof counts as complete. */
  predicate CleanEnd(end: End) { end == Eof || end == UnexpectedEof }

  /** What EncryptStream hands to its destination, write by write. */
  function EncryptWrites(a: Cipher, base: NonceBytes, p: seq<byte>): seq<seq<byte>> {
    [base] + Sealed(a, base, 0, p)
  }

  function EncryptError(total: seq<byte>, room: Option<nat>, end: End): Option<Error> {
    if !Fits(total, room) then Some(WriteFailed)
    else if CleanEnd(end) then None
    else Some(end)
  }

  lemma WritesFlatten(a: Cipher, base: NonceBytes, p: seq<byte>)
    ensures Flatten(EncryptWrites(a, base, p)) == Encrypted(a, base, p)
  {
    assert EncryptWrites(a, base, p)[1..] == Sealed(a, base, 0, p);
  }

  /** The first k chunks of p are written, `done` in all, and `rest` is still to be read. */
  ghost predicate Encrypting(a: Cipher, base: NonceBytes, p: seq<byte>, room: Option<nat>,
                             k: nat, done: seq<byte>, writes: seq<seq<byte>>, rest: seq<byte>)
  {
    && Fits(done, room)
    && Body(a, base, 0, p) == done + Body(a, base, k, rest)
    && Sealed(a, base, 0, p) == writes + Sealed(a, base, k, rest)
  }

  lemma EncryptingStep(a: Cipher, base: NonceBytes, p: seq<byte>, room: Option<nat>,
                       k: nat, done: seq<byte>, writes: seq<seq<byte>>, rest: seq<byte>, start: seq<byte>)
    requires Encrypting(a, base, p, room, k, done, writes, rest) && rest != []
    ensures var chunk, left := a.seal(NonceOf(base, k), Head(rest)), Left(room, |done|);
            if Fits(chunk, left)
            then Encrypting(a, base, p, room, k + 1, done + chunk, writes + [chunk], Rest(rest))
                 && Left(room, |done + chunk|) == Left(left, |chunk|)
                 && start + done + Fit(chunk, left) == start + (done + chunk)
            else !Fits(Body(a, base, 0, p), room)
                 && start + done + Fit(chunk, left) == start + Fit(Body(a, base, 0, p), room)
  {
    var chunk, later := a.seal(NonceOf(base, k), Head(rest)), Body(a, base, k + 1, Rest(rest));
    BodyStep(a, base, k, rest);
    FitMore(done, chunk, later, room);
    assert done + (chunk + later) == done + chunk + later;
    assert start + done + Fit(chunk, Left(room, |done|)) == start + (done + Fit(chunk, Left(room, |done|)));
    var sealed := Sealed(a, base, k + 1, Rest(rest));
    assert writes + ([chunk] + sealed) == writes + [chunk] + sealed;
  }

  lemma EncryptingEnd(a: Cipher, base: NonceBytes, p: seq<byte>, room: Option<nat>,
                      k: nat, done: seq<byte>, writes: seq<seq<byte>>)
    requires Encrypting(a, base, p, room, k, done, writes, [])
    ensures Fits(Body(a, base, 0, p), room) && Fit(Body(a, base, 0, p), room) == done
    ensures Sealed(a, base, 0, p) == writes
  {
    assert done + [] == done && writes + [] == writes;
  }

  method SealChunk(a: Cipher, base: NonceBytes, counter: uint64, p: seq<byte>) returns (c: seq<byte>)
    ensures c == a.seal(ChunkNonce(base, counter), p)
  {
    var nonce := FillChunkNonce(base, counter);
    c := a.seal(nonce[..], p);
  }

  method OpenChunk(a: Cipher, base: NonceBytes, counter: uint64, c: seq<byte>) returns (p: Option<seq<byte>>)
    ensures p == a.open(ChunkNonce(base, counter), c)
  {
    var nonce := FillChunkNonce(base, counter);
    p := a.open(nonce[..], c);
  }

  /** The chunk loop of EncryptStream. */
  method EncryptChunks(a: Cipher, base: NonceBytes, dst: Writer, src: Reader) returns (err: Option<Error>)
    modifies dst, src
    ensures dst.contents == old(dst.contents) + Fit(Body(a, base, 0, old(src.data)), old(dst.room))
    ensures err == EncryptError(Body(a, base, 0, old(src.data)), old(dst.room), src.end)
    ensures err != Some(WriteFailed) ==> dst.calls == old(dst.calls) + Sealed(a, base, 0, old(src.data))
  {
    var buf := new byte[CHUNK];
    var counter: uint64 := 0;
    err := None;
    ghost var p, room, start, calls := src.data, dst.room, dst.contents, dst.calls;
    ghost var k, done: seq<byte>, writes: seq<seq<byte>> := 0, [], [];
    while true
      invariant counter == k % U64 && err == None
      invariant Encrypting(a, base, p, room, k, done, writes, src.data)
      invariant dst.room == Left(room, |done|)
      invariant dst.contents == start + done && dst.calls == calls + writes
      decreases |src.data|
    {
      ghost var rest := src.data;
      var n, readErr := ReadFull(src, buf);
      if n > 0 {
        assert buf[..n] == Head(rest) && src.data == Rest(rest);
        var ciphertext := SealChunk(a, base, counter, buf[..n]);
        IncWraps(k);
        counter := Inc(counter);
        EncryptingStep(a, base, p, room, k, done, writes, rest, start);
        err := dst.Write(ciphertext);
        if err.Some? { return; }
        assert calls + writes + [ciphertext] == calls + (writes + [ciphertext]);
        k, done, writes := k + 1, done + ciphertext, writes + [ciphertext];
      }
      if readErr == Some(Eof) || readErr == Some(UnexpectedEof) { break; }
      if readErr.Some? { err := readErr; break; }
    }
    EncryptingEnd(a, base, p, room, k, done, writes);
  }

  /** The destination receives the container of everything the source delivered, cut where
      the destination stopped, whatever the splits and also when the source fails midway.
      The call succeeds exactly when everything was taken and the source ended by Eof or
      UnexpectedEof. */
  method EncryptStream(a: Aead, random: Reader, dst: Writer, src: Reader) returns (err: Option<Error>)
    requires random != src
    modifies random, dst, src
    ensures |old(random.data)| < NONCE_SIZE ==>
              && err == ShortRead(|old(random.data)|, NONCE_SIZE, random.end)
              && unchanged(dst) && unchanged(src)
    ensures |old(random.data)| >= NONCE_SIZE ==>
              var base := old(random.data)[..NONCE_SIZE];
              var total := Encrypted(a, base, old(src.data));
              && dst.contents == old(dst.contents) + Fit(total, old(dst.room))
              && err == EncryptError(total, old(dst.room), src.end)
              && (err != Some(WriteFailed) ==> dst.calls == old(dst.calls) + EncryptWrites(a, base, old(src.data)))
              && (old(dst.room) == None || |total| <= old(dst.room).value ==>
                    dst.contents == old(dst.contents) + total
                    && err == if src.end == Eof || src.end == UnexpectedEof then None else Some(src.end))
              && (old(dst.room) != None && |total| > old(dst.room).value ==>
                    dst.contents == old(dst.contents) + total[..old(dst.room).value] && err == Some(WriteFailed))
  {
    var nonce := new byte[NONCE_SIZE];
    var n;
    n, err := ReadFull(random, nonce);
    if err.Some? { return; }
    var base: NonceBytes := nonce[..];
    assert base == old(random.data)[..NONCE_SIZE];
    FitConcat(base, Body(a, base, 0, src.data), dst.room);
    err := dst.Write(base);
    if err.Some? { return; }
    ghost var calls, sealed := old(dst.calls), Sealed(a, base, 0, src.data);
    assert calls + [base] + sealed == calls + ([base] + sealed);
    err := EncryptChunks(a, base, dst, src);
  }

  function DecryptError(opening: Opening, room: Option<nat>, end: End): Option<Error> {
    if !Fits(opening.plain, room) then Some(WriteFailed)
    else if !opening.accepted then Some(AuthFailed)
    else if CleanEnd(end) then None
    else Some(end)
  }

  function Then(done: seq<byte>, opening: Opening): Opening {
    opening.(plain := done + opening.plain)
  }

  lemma OpenRead(a: Cipher, base: NonceBytes, k: nat, s: seq<byte>)
    requires s != []
    ensures var n := Min(SEALED_CHUNK, |s|);
            var piece := a.open(NonceOf(base, k), s[..n]);
            Open(a, base, k, s) == if piece.None? then Opening([], false)
                                   else Then(piece.value, Open(a, base, k + 1, s[n..]))
  {
  }

  /** The first k chunks are opened and written, `done` in all, and `rest` is still to be read. */
  ghost predicate Decrypting(a: Cipher, base: NonceBytes, all: Opening, room: Option<nat>,
                             k: nat, done: seq<byte>, rest: seq<byte>)
  {
    Fits(done, room) && all == Then(done, Open(a, base, k, rest))
  }

  lemma DecryptingStep(a: Cipher, base: NonceBytes, all: Opening, room: Option<nat>,
                       k: nat, done: seq<byte>, rest: seq<byte>, start: seq<byte>)
    requires Decrypting(a, base, all, room, k, done, rest) && rest != []
    ensures var n, left := Min(SEALED_CHUNK, |rest|), Left(room, |done|);
            var piece := a.open(NonceOf(base, k), rest[..n]);
            if piece.None? then all == Opening(done, false) && Fit(all.plain, room) == done
            else if Fits(piece.value, left)
            then Decrypting(a, base, all, room, k + 1, done + piece.value, rest[n..])
                 && Left(room, |done + piece.value|) == Left(left, |piece.value|)
                 && start + done + Fit(piece.value, left) == start + (done + piece.value)
            else !Fits(all.plain, room)
                 && start + done + Fit(piece.value, left) == start + Fit(all.plain, room)
  {
    OpenRead(a, base, k, rest);
    var n := Min(SEALED_CHUNK, |rest|);
    var piece := a.open(NonceOf(base, k), rest[..n]);
    if piece.None? {
      assert done + [] == done;
    } else {
      var later := Open(a, base, k + 1, rest[n..]).plain;
      FitMore(done, piece.value, later, room);
      assert done + (piece.value + later) == done + piece.value + later;
      var part := Fit(piece.value, Left(room, |done|));
      assert start + done + part == start + (done + part);
    }
  }

  lemma DecryptingEnd(a: Cipher, base: NonceBytes, all: Opening, room: Option<nat>, k: nat, done: seq<byte>)
    requires Decrypting(a, base, all, room, k, done, [])
    ensures all == Opening(done, true) && Fit(all.plain, room) == done
  {
    assert done + [] == done;
  }

  /** The chunk loop of DecryptStream. */
  method DecryptChunks(a: Cipher, base: NonceBytes, dst: Writer, src: Reader) returns (err: Option<Error>)
    modifies dst, src
    ensures var opening := Open(a, base, 0, old(src.data));
            && dst.contents == old(dst.contents) + Fit(opening.plain, old(dst.room))
            && err == DecryptError(opening, old(dst.room), src.end)
  {
    var buf := new byte[SEALED_CHUNK];
    var counter: uint64 := 0;
    err := None;
    ghost var opening, room, start := Open(a, base, 0, src.data), dst.room, dst.contents;
    ghost var k, done: seq<byte> := 0, [];
    assert [] + opening.plain == opening.plain;
    while true
      invariant counter == k % U64 && err == None
      invariant Decrypting(a, base, opening, room, k, done, src.data)
      invariant dst.room == Left(room, |done|)
      invariant dst.contents == start + done
      decreases |src.data|
    {
      ghost var rest := src.data;
      var n, readErr := ReadFull(src, buf);
      if n > 0 {
        DecryptingStep(a, base, opening, room, k, done, rest, start);
        assert buf[..n] == rest[..n];
        var piece := OpenChunk(a, base, counter, buf[..n]);
        if piece.None? { return Some(AuthFailed); }
        IncWraps(k);
        counter := Inc(counter);
        err := dst.Write(piece.value);
        if err.Some? { return; }
        k, done := k + 1, done + piece.value;
      }
      if readErr == Some(Eof) || readErr == Some(UnexpectedEof) { break; }
      if readErr.Some? { err := readErr; break; }
    }
    DecryptingEnd(a, base, opening, room, k, done);
  }

  /** The destination receives the plaintext of every chunk up to the first that does not
      open, cut where the destination stopped, whatever the splits. The call succeeds exactly
      when every chunk opened and was taken and the source ended by Eof or UnexpectedEof. */
  method DecryptStream(a: Aead, dst: Writer, src: Reader) returns (err: Option<Error>)
    modifies dst, src
    ensures |old(src.data)| < NONCE_SIZE ==>
              && unchanged(dst)
              && err == Some(if old(src.data) != [] && src.end == Eof then UnexpectedEof else src.end)
    ensures |old(src.data)| >= NONCE_SIZE ==>
              var opening := Open(a, old(src.data)[..NONCE_SIZE], 0, old(src.data)[NONCE_SIZE..]);
              && dst.contents == old(dst.contents) + Fit(opening.plain, old(dst.room))
              && err == DecryptError(opening, old(dst.room), src.end)
              && (old(dst.room) == None || |opening.plain| <= old(dst.room).value ==>
                    dst.contents == old(dst.contents) + opening.plain
                    && err == if !opening.accepted then Some(AuthFailed)
                              else if src.end == Eof || src.end == UnexpectedEof then None else Some(src.end))
              && (old(dst.room) != None && |opening.plain| > old(dst.room).value ==>
                    dst.contents == old(dst.contents) + opening.plain[..old(dst.room).value]
                    && err == Some(WriteFailed))
  {
    var nonce := new byte[NONCE_SIZE];
    var n;
    n, err := ReadFull(src, nonce);
    if err.Some? { return; }
    var base: NonceBytes := nonce[..];
    assert base == old(src.data)[..NONCE_SIZE];
    err := DecryptChunks(a, base, dst, src);
  }

  // ---- Whole calls ----

  /** A stream is accepted without error exactly when it is a 12-byte nonce, followed by the
      encryption of the delivered plaintext under it or by that and one sealed empty chunk. */
  lemma DecryptAcceptsExactly(a: Aead, s: seq<byte>, p: seq<byte>)
    requires |s| >= NONCE_SIZE
    ensures var base: NonceBytes := s[..NONCE_SIZE];
            (DecryptError(Open(a, base, 0, s[NONCE_SIZE..]), None, Eof) == None
             && Open(a, base, 0, s[NONCE_SIZE..]).plain == p)
            <==> (s == Encrypted(a, base, p)
                  || (|p| % CHUNK == 0 && s == Encrypted(a, base, p) + EmptyChunk(a, base, 0, p)))
  {
    var base: NonceBytes := s[..NONCE_SIZE];
    AcceptedExactly(a, base, s[NONCE_SIZE..], p);
    assert s == base + s[NONCE_SIZE..];
    assert Encrypted(a, base, p)[NONCE_SIZE..] == Body(a, base, 0, p);
    assert (Encrypted(a, base, p) + EmptyChunk(a, base, 0, p))[NONCE_SIZE..]
        == Body(a, base, 0, p) + EmptyChunk(a, base, 0, p);
  }

  /** Encrypting, storing and decrypting again returns the plaintext, for every plaintext,
      every nonce and every way the three readers split their data. */
  method RoundTrip(a: Aead, random: Reader, src: Reader, plan: seq<(nat, bool)>)
    returns (out: seq<byte>, err: Option<Error>)
    requires random != src && CleanEnd(src.end) && |random.data| >= NONCE_SIZE
    modifies random, src
    ensures err == None && out == old(src.data)
  {
    ghost var p, base: NonceBytes := src.data, random.data[..NONCE_SIZE];
    var store := new Writer(None);
    err := EncryptStream(a, random, store, src);
    assert store.contents == Encrypted(a, base, p);
    var stored := new Reader(store.contents, plan, Eof);
    var dst := new Writer(None);
    OpenBody(a, base, 0, p);
    assert Encrypted(a, base, p)[..NONCE_SIZE] == base && Encrypted(a, base, p)[NONCE_SIZE..] == Body(a, base, 0, p);
    err := DecryptStream(a, dst, stored);
    out := dst.contents;
  }
}
