/** The encrypted container: a 12-byte base nonce followed by one sealed chunk for
    every 32768 bytes of plaintext. The cipher itself is abstract. */
module Container {
  import opened Bytes
  import opened Nonce

  const CHUNK := 32768
  const TAG := 16
  const SEALED_CHUNK := CHUNK + TAG
  const MAX_FILE_SIZE := 100 * 1024 * 1024

  datatype Cipher = Cipher(
    seal: (NonceBytes, seq<byte>) -> seq<byte>,
    open: (NonceBytes, seq<byte>) -> Option<seq<byte>>)

  /** Authenticated encryption under one key: sealing adds a tag, and opening
      accepts exactly what sealing produced under the same nonce. */
  ghost predicate Lawful(a: Cipher) {
    && (forall n: NonceBytes, p: seq<byte> :: |a.seal(n, p)| == |p| + TAG)
    && (forall n: NonceBytes, p: seq<byte> {:trigger a.open(n, a.seal(n, p))} ::
         a.open(n, a.seal(n, p)) == Some(p))
    && (forall n: NonceBytes, c: seq<byte> {:trigger a.open(n, c)} ::
         a.open(n, c).Some? ==> a.seal(n, a.open(n, c).value) == c)
  }

  /** Witness for the laws; nothing below depends on it. */
  ghost function TagOnly(): (a: Cipher)
    ensures Lawful(a)
  {
    var zeros := seq(TAG, _ => 0);
    var a := Cipher(
      (n, p) => p + zeros,
      (n, c) => if |c| >= TAG && c[|c| - TAG..] == zeros then Some(c[..|c| - TAG]) else None);
    assert forall p: seq<byte> :: (p + zeros)[..|p|] == p && (p + zeros)[|p|..] == zeros;
    a
  }

  type Aead = a: Cipher | Lawful(a) ghost witness TagOnly()

  // ---- Printer and parser as functions ----

  function Min(a: nat, b: nat): nat { if a < b then a else b }

  /** The nonce under which chunk i of a file is sealed: the counter is a uint64 and wraps. */
  function NonceOf(base: NonceBytes, i: nat): NonceBytes { ChunkNonce(base, i % U64) }

  /** The sealed chunks of p, the first one being chunk k of the file. */
  function Sealed(a: Cipher, base: NonceBytes, k: nat, p: seq<byte>): (r: seq<seq<byte>>)
    decreases |p|
  {
    if p == [] then []
    else [a.seal(NonceOf(base, k), Head(p))] + Sealed(a, base, k + 1, Rest(p))
  }

  /** What one read of a whole chunk takes from p, and what it leaves. */
  function Head(p: seq<byte>): seq<byte> { p[..Min(CHUNK, |p|)] }

  function Rest(p: seq<byte>): seq<byte> { p[Min(CHUNK, |p|)..] }

  function Body(a: Cipher, base: NonceBytes, k: nat, p: seq<byte>): seq<byte> {
    Flatten(Sealed(a, base, k, p))
  }

  function Encrypted(a: Cipher, base: NonceBytes, p: seq<byte>): seq<byte> {
    base + Body(a, base, 0, p)
  }

  /** What decryption hands on, and whether it stopped at a chunk that did not open. */
  datatype Opening = Opening(plain: seq<byte>, accepted: bool)

  function Open(a: Cipher, base: NonceBytes, k: nat, s: seq<byte>): Opening
    decreases |s|
  {
    if s == [] then Opening([], true)
    else
      var n := Min(SEALED_CHUNK, |s|);
      match a.open(NonceOf(base, k), s[..n])
      case None => Opening([], false)
      case Some(p) =>
        var rest := Open(a, base, k + 1, s[n..]);
        Opening(p + rest.plain, rest.accepted)
  }

  // ---- Round trip and near-canonicity ----

  lemma BodyStep(a: Cipher, base: NonceBytes, k: nat, p: seq<byte>)
    requires p != []
    ensures Body(a, base, k, p) == a.seal(NonceOf(base, k), Head(p)) + Body(a, base, k + 1, Rest(p))
    ensures Head(p) + Rest(p) == p
    ensures |Head(p)| < CHUNK ==> Rest(p) == []
    ensures ChunkCount(|p|) == 1 + ChunkCount(|Rest(p)|)
  {
  }

  lemma {:induction false} OpenStep(a: Aead, base: NonceBytes, k: nat, p: seq<byte>, s: seq<byte>)
    requires |p| <= CHUNK && (|p| < CHUNK ==> s == [])
    ensures Open(a, base, k, a.seal(NonceOf(base, k), p) + s)
         == Opening(p + Open(a, base, k + 1, s).plain, Open(a, base, k + 1, s).accepted)
  {
    var sealed := a.seal(NonceOf(base, k), p);
    assert |sealed| == |p| + TAG;
    var n := Min(SEALED_CHUNK, |sealed + s|);
    assert n == |sealed|;
    assert (sealed + s)[..n] == sealed && (sealed + s)[n..] == s;
  }

  /** Decrypting what was encrypted gives it back. */
  lemma {:induction false} OpenBody(a: Aead, base: NonceBytes, k: nat, p: seq<byte>)
    ensures Open(a, base, k, Body(a, base, k, p)) == Opening(p, true)
    decreases |p|
  {
    if p != [] {
      BodyStep(a, base, k, p);
      OpenBody(a, base, k + 1, Rest(p));
      if Rest(p) == [] { assert Body(a, base, k + 1, Rest(p)) == []; }
      OpenStep(a, base, k, Head(p), Body(a, base, k + 1, Rest(p)));
    }
  }

  lemma OpenFirst(a: Cipher, base: NonceBytes, k: nat, s: seq<byte>, t: seq<byte>)
    requires |s| >= SEALED_CHUNK && Open(a, base, k, s).accepted
    ensures var piece := a.open(NonceOf(base, k), s[..SEALED_CHUNK]);
            var rest, all := Open(a, base, k + 1, s[SEALED_CHUNK..]), Open(a, base, k + 1, s[SEALED_CHUNK..] + t);
            && piece.Some? && rest.accepted
            && Open(a, base, k, s).plain == piece.value + rest.plain
            && Open(a, base, k, s + t) == Opening(piece.value + all.plain, all.accepted)
  {
    assert (s + t)[..SEALED_CHUNK] == s[..SEALED_CHUNK];
    assert (s + t)[SEALED_CHUNK..] == s[SEALED_CHUNK..] + t;
  }

  /** len is m times size, counted by subtraction. */
  predicate Times(len: nat, size: nat, m: nat) {
    if m == 0 then len == 0 else len >= size && Times(len - size, size, m - 1)
  }

  lemma {:induction false} TimesProduct(len: nat, size: nat, m: nat)
    requires len == m * size
    ensures Times(len, size, m)
  {
    if m > 0 {
      assert len - size == (m - 1) * size;
      TimesProduct(len - size, size, m - 1);
    }
  }

  /** Behind m whole sealed chunks, decryption goes on at chunk j = k + m with what follows. */
  lemma {:induction false} OpenConcat(a: Cipher, base: NonceBytes, k: nat, s: seq<byte>, m: nat, j: nat, t: seq<byte>)
    requires Times(|s|, SEALED_CHUNK, m) && j == k + m
    requires Open(a, base, k, s).accepted
    ensures Open(a, base, k, s + t)
         == Opening(Open(a, base, k, s).plain + Open(a, base, j, t).plain, Open(a, base, j, t).accepted)
    decreases m
  {
    var last := Open(a, base, j, t).plain;
    if m == 0 {
      assert s + t == t && [] + last == last;
    } else {
      OpenFirst(a, base, k, s, t);
      var rest := s[SEALED_CHUNK..];
      OpenConcat(a, base, k + 1, rest, m - 1, j, t);
      var piece := a.open(NonceOf(base, k), s[..SEALED_CHUNK]).value;
      var middle := Open(a, base, k + 1, rest).plain;
      assert piece + (middle + last) == piece + middle + last;
    }
  }

  lemma WholeLength(a: Aead, base: NonceBytes, k: nat, p: seq<byte>, m: nat)
    requires |p| == m * CHUNK
    ensures |Body(a, base, k, p)| == m * SEALED_CHUNK
  {
    BodyLength(a, base, k, p);
    assert ChunkCount(m * CHUNK) == m;
  }

  /** Behind the encryption of whole chunks k to j-1, decryption goes on at chunk j. */
  lemma OpenAfter(a: Aead, base: NonceBytes, k: nat, p: seq<byte>, j: nat, t: seq<byte>)
    requires k <= j && |p| == (j - k) * CHUNK
    ensures Open(a, base, k, Body(a, base, k, p) + t)
         == Opening(p + Open(a, base, j, t).plain, Open(a, base, j, t).accepted)
  {
    WholeLength(a, base, k, p, j - k);
    TimesProduct(|Body(a, base, k, p)|, SEALED_CHUNK, j - k);
    OpenBody(a, base, k, p);
    OpenConcat(a, base, k, Body(a, base, k, p), j - k, j, t);
  }

  /** The sealed empty chunk the parser tolerates after only full chunks. */
  function EmptyChunk(a: Cipher, base: NonceBytes, k: nat, p: seq<byte>): seq<byte> {
    a.seal(NonceOf(base, k + |p| / CHUNK), [])
  }

  predicate Canonical(a: Cipher, base: NonceBytes, k: nat, p: seq<byte>, s: seq<byte>) {
    || s == Body(a, base, k, p)
    || (|p| % CHUNK == 0 && s == Body(a, base, k, p) + EmptyChunk(a, base, k, p))
  }

  lemma {:induction false} CanonicalOpens(a: Aead, base: NonceBytes, k: nat, p: seq<byte>, s: seq<byte>)
    requires Canonical(a, base, k, p, s)
    ensures Open(a, base, k, s) == Opening(p, true)
  {
    if s == Body(a, base, k, p) {
      OpenBody(a, base, k, p);
    } else {
      OpenAfter(a, base, k, p, k + |p| / CHUNK, EmptyChunk(a, base, k, p));
      OpenStep(a, base, k + |p| / CHUNK, [], []);
      assert EmptyChunk(a, base, k, p) + [] == EmptyChunk(a, base, k, p);
    }
  }

  lemma CanonicalMore(a: Cipher, base: NonceBytes, k: nat, piece: seq<byte>, p: seq<byte>, s: seq<byte>)
    requires |piece| == CHUNK && Canonical(a, base, k + 1, p, s)
    ensures Canonical(a, base, k, piece + p, a.seal(NonceOf(base, k), piece) + s)
  {
    assert Head(piece + p) == piece && Rest(piece + p) == p;
    BodyStep(a, base, k, piece + p);
    assert |piece + p| / CHUNK == 1 + |p| / CHUNK;
    var sealed := a.seal(NonceOf(base, k), piece);
    if s != Body(a, base, k + 1, p) {
      assert sealed + (Body(a, base, k + 1, p) + EmptyChunk(a, base, k + 1, p))
          == sealed + Body(a, base, k + 1, p) + EmptyChunk(a, base, k + 1, p);
    }
  }

  lemma CanonicalLast(a: Cipher, base: NonceBytes, k: nat, piece: seq<byte>)
    requires |piece| < CHUNK
    ensures Canonical(a, base, k, piece, a.seal(NonceOf(base, k), piece))
  {
    var sealed := a.seal(NonceOf(base, k), piece);
    if piece == [] {
      assert [] + sealed == sealed;
    } else {
      BodyStep(a, base, k, piece);
      assert Head(piece) == piece && sealed + [] == sealed;
    }
  }

  lemma {:induction false} OpensOnlyCanonical(a: Aead, base: NonceBytes, k: nat, s: seq<byte>)
    requires Open(a, base, k, s).accepted
    ensures Canonical(a, base, k, Open(a, base, k, s).plain, s)
    decreases |s|
  {
    if s != [] {
      var n := Min(SEALED_CHUNK, |s|);
      var piece := a.open(NonceOf(base, k), s[..n]).value;
      var plain := Open(a, base, k + 1, s[n..]).plain;
      assert a.seal(NonceOf(base, k), piece) == s[..n] && |piece| == n - TAG;
      OpensOnlyCanonical(a, base, k + 1, s[n..]);
      assert s == s[..n] + s[n..];
      if n == SEALED_CHUNK {
        CanonicalMore(a, base, k, piece, plain, s[n..]);
      } else {
        assert s[n..] == [] && piece + plain == piece;
        CanonicalLast(a, base, k, piece);
      }
    }
  }

  /** A stream body decrypts to p without an error exactly when it is the encryption of p,
      or, for whole chunks only, that encryption followed by one sealed empty chunk. */
  lemma AcceptedExactly(a: Aead, base: NonceBytes, s: seq<byte>, p: seq<byte>)
    ensures Open(a, base, 0, s) == Opening(p, true) <==> Canonical(a, base, 0, p, s)
  {
    if Open(a, base, 0, s) == Opening(p, true) {
      OpensOnlyCanonical(a, base, 0, s);
    }
    if Canonical(a, base, 0, p, s) {
      CanonicalOpens(a, base, 0, p, s);
    }
  }

  /** A chunk that does not open, behind m whole chunks, ends the delivery exactly there. */
  lemma RefusedChunk(a: Aead, base: NonceBytes, p: seq<byte>, m: nat, s: seq<byte>)
    requires |p| == m * CHUNK && s != []
    requires a.open(NonceOf(base, m), s[..Min(SEALED_CHUNK, |s|)]) == None
    ensures Open(a, base, 0, Body(a, base, 0, p) + s) == Opening(p, false)
  {
    OpenAfter(a, base, 0, p, m, s);
    assert p + [] == p;
  }

  // ---- Layout: chunk count, lengths and nonces ----

  function ChunkCount(size: nat): nat { (size + CHUNK - 1) / CHUNK }

  function Piece(p: seq<byte>, i: nat): seq<byte>
    requires i < ChunkCount(|p|)
  {
    p[i * CHUNK..Min(|p|, (i + 1) * CHUNK)]
  }

  /** Piece i of p is piece i-1 of what the first read leaves. */
  lemma PieceOfRest(p: seq<byte>, i: nat)
    requires 0 < i < ChunkCount(|p|)
    ensures |p| > CHUNK && ChunkCount(|Rest(p)|) == ChunkCount(|p|) - 1
    ensures Piece(p, i) == Piece(Rest(p), i - 1)
  {
    var rest := p[CHUNK..];
    assert Rest(p) == rest;
    var x, y := (i - 1) * CHUNK, Min(|rest|, i * CHUNK);
    assert i * CHUNK == CHUNK + x && Min(|p|, (i + 1) * CHUNK) == CHUNK + y;
    SliceOfTail(p, CHUNK, x, y);
  }

  lemma SliceOfTail<T>(p: seq<T>, n: nat, x: nat, y: nat)
    requires x <= y && n + y <= |p|
    ensures p[n..][x..y] == p[n + x..n + y]
  {
  }

  /** Chunk i is the i-th piece of the plaintext, sealed under the i-th nonce. */
  lemma {:induction false} SealedAt(a: Cipher, base: NonceBytes, k: nat, p: seq<byte>, i: nat)
    requires i < ChunkCount(|p|)
    ensures i < |Sealed(a, base, k, p)|
    ensures Sealed(a, base, k, p)[i] == a.seal(NonceOf(base, k + i), Piece(p, i))
    decreases i
  {
    if i == 0 {
      assert Piece(p, 0) == Head(p);
    } else {
      PieceOfRest(p, i);
      SealedAt(a, base, k + 1, Rest(p), i - 1);
      assert Sealed(a, base, k, p)[i] == Sealed(a, base, k + 1, Rest(p))[i - 1];
    }
  }

  lemma {:induction false} BodyLength(a: Aead, base: NonceBytes, k: nat, p: seq<byte>)
    ensures |Sealed(a, base, k, p)| == ChunkCount(|p|)
    ensures |Body(a, base, k, p)| == |p| + TAG * ChunkCount(|p|)
    decreases |p|
  {
    if p != [] {
      BodyStep(a, base, k, p);
      BodyLength(a, base, k + 1, Rest(p));
    }
  }

  /** Stored size of a file: nonce, plaintext, and one tag per chunk; at most 3200 chunks
      for the largest file the service takes. */
  lemma ContainerLength(a: Aead, base: NonceBytes, p: seq<byte>)
    ensures |Encrypted(a, base, p)| == NONCE_SIZE + |p| + TAG * ((|p| + CHUNK - 1) / CHUNK)
    ensures |p| <= MAX_FILE_SIZE ==> |Sealed(a, base, 0, p)| <= 3200
  {
    BodyLength(a, base, 0, p);
  }

  lemma SameNonce(base: NonceBytes, i: nat, j: nat)
    requires i < U64
    ensures NonceOf(base, i) == NonceOf(base, j) <==> i == j % U64
  {
    var c: uint64 := j % U64;
    assert i % U64 == i;
    ChunkNonceInjective(base, i, c);
  }

  /** Within one file the nonces are pairwise different exactly up to 2^64 chunks. */
  lemma NoncesDistinct(base: NonceBytes, chunks: nat)
    ensures (forall i: nat, j: nat :: i < j < chunks ==> NonceOf(base, i) != NonceOf(base, j)) <==> chunks <= U64
  {
    if chunks <= U64 {
      forall i: nat, j: nat | i < j < chunks
        ensures NonceOf(base, i) != NonceOf(base, j)
      {
        SameNonce(base, i, j);
      }
    } else {
      SameNonce(base, 0, U64);
    }
  }

  // ---- Truncated containers ----

  lemma {:induction false} BodySplit(a: Cipher, base: NonceBytes, k: nat, p: seq<byte>, m: nat)
    requires m * CHUNK <= |p|
    ensures Body(a, base, k, p) == Body(a, base, k, p[..m * CHUNK]) + Body(a, base, k + m, p[m * CHUNK..])
    decreases m
  {
    if m == 0 {
      assert p[..0] == [] && p[0..] == p;
    } else {
      var head, rest, front := p[..CHUNK], p[CHUNK..], p[..m * CHUNK];
      BodySplit(a, base, k + 1, rest, m - 1);
      assert front[..CHUNK] == head && front[CHUNK..] == rest[..(m - 1) * CHUNK];
      assert rest[(m - 1) * CHUNK..] == p[m * CHUNK..];
      var sealed := a.seal(NonceOf(base, k), head);
      assert Body(a, base, k, p) == sealed + Body(a, base, k + 1, rest);
      assert Body(a, base, k, front) == sealed + Body(a, base, k + 1, rest[..(m - 1) * CHUNK]);
    }
  }

  lemma BodyCut(a: Aead, base: NonceBytes, p: seq<byte>, m: nat, r: nat)
    requires r < SEALED_CHUNK && m * SEALED_CHUNK + r < |Body(a, base, 0, p)|
    ensures m * CHUNK <= |p| && r <= |Body(a, base, m, p[m * CHUNK..])|
    ensures Body(a, base, 0, p)[..m * SEALED_CHUNK + r]
         == Body(a, base, 0, p[..m * CHUNK]) + Body(a, base, m, p[m * CHUNK..])[..r]
  {
    BodyLength(a, base, 0, p);
    BodySplit(a, base, 0, p, m);
    WholeLength(a, base, 0, p[..m * CHUNK], m);
  }

  lemma OpenShort(a: Cipher, base: NonceBytes, k: nat, s: seq<byte>)
    requires |s| < SEALED_CHUNK
    ensures s == [] ==> Open(a, base, k, s) == Opening([], true)
    ensures Open(a, base, k, s).accepted <==> s == [] || a.open(NonceOf(base, k), s).Some?
    ensures !Open(a, base, k, s).accepted ==> Open(a, base, k, s).plain == []
  {
    assert s[..|s|] == s && s[|s|..] == [];
  }

  /** A container body cut r bytes into chunk m: the m complete chunks before the cut are
      delivered first, and nothing else unless the remaining piece opens by itself, which is
      exactly when the shorter stream is accepted. Cut between chunks, it is accepted as the
      shorter file. */
  lemma CutContainer(a: Aead, base: NonceBytes, p: seq<byte>, m: nat, r: nat)
    requires r < SEALED_CHUNK && m * SEALED_CHUNK + r < |Body(a, base, 0, p)|
    ensures m * CHUNK <= |p|
    ensures var body := Body(a, base, 0, p);
            var got := Open(a, base, 0, body[..m * SEALED_CHUNK + r]);
            var last := body[m * SEALED_CHUNK..m * SEALED_CHUNK + r];
            && p[..m * CHUNK] <= got.plain
            && (r == 0 ==> got == Opening(p[..m * CHUNK], true))
            && (got.accepted <==> r == 0 || a.open(NonceOf(base, m), last).Some?)
            && (!got.accepted ==> got.plain == p[..m * CHUNK])
  {
    BodyCut(a, base, p, m, r);
    var front, last := p[..m * CHUNK], Body(a, base, m, p[m * CHUNK..])[..r];
    OpenAfter(a, base, 0, front, m, last);
    OpenShort(a, base, m, last);
    assert front + [] == front;
    WholeLength(a, base, 0, front, m);
    var body, x := Body(a, base, 0, p), m * SEALED_CHUNK;
    assert body[..x + r][x..] == body[x..x + r];
    assert (Body(a, base, 0, front) + last)[x..] == last;
  }
}
