/** `sha256_file` (snapshot.py and src/snapshot.py): a file hashed in
    fixed-size chunks through an incremental hasher.

    The hasher state is the sequence of bytes passed to `update` so far, and
    `hexdigest` applies the uninterpreted `hash` to it: SHA-256 is a function of
    the concatenated input, however it was split. */
module StreamHash {
  import opened Base
  import opened FileTree

  /** The read size of both chunk loops. */
  const ChunkSize: nat := 65536

  /** `f.read(n)` on a regular file positioned at `pos`: `n` bytes, fewer only
      at the end of the file, none at the end. */
  function ReadAt(content: Bytes, pos: nat, n: nat): (r: Bytes)
    requires pos <= |content|
    ensures |r| == (if pos + n <= |content| then n else |content| - pos)
    ensures r == content[pos..pos + |r|]
  {
    if pos + n <= |content| then content[pos..pos + n] else content[pos..]
  }

  /** The state of a `hashlib.sha256()` object. */
  datatype HashState = HashState(fed: Bytes)

  /** `h.update(chunk)`. */
  function Update(h: HashState, chunk: Bytes): HashState {
    HashState(h.fed + chunk)
  }

  /** `h.hexdigest()`. */
  function HexDigest(h: HashState, hash: Hasher): Digest {
    hash(h.fed)
  }

  /** The chunks joined in order. */
  function Concat(chunks: seq<Bytes>): Bytes {
    if chunks == [] then [] else chunks[0] + Concat(chunks[1..])
  }

  lemma {:induction false} ConcatSnoc(chunks: seq<Bytes>, c: Bytes)
    ensures Concat(chunks + [c]) == Concat(chunks) + c
  {
    if chunks != [] {
      assert (chunks + [c])[1..] == chunks[1..] + [c];
      ConcatSnoc(chunks[1..], c);
    }
  }

  /** The loop of snapshot.py:19-24. `chunks` are the values the walrus
      assignment binds and feeds to `update`: all non-empty, all full but the
      last, together the whole file, so the digest is the hash of the file. */
  method Sha256File(content: Bytes, hash: Hasher) returns (digest: Digest, chunks: seq<Bytes>)
    ensures digest == hash(content)
    ensures Concat(chunks) == content
    ensures forall i :: 0 <= i < |chunks| ==> 0 < |chunks[i]| <= ChunkSize
    ensures forall i :: 0 <= i < |chunks| - 1 ==> |chunks[i]| == ChunkSize
  {
    var h := HashState([]);
    var pos: nat := 0;
    chunks := [];
    var chunk := ReadAt(content, pos, ChunkSize);
    while |chunk| > 0
      invariant pos <= |content|
      invariant h.fed == content[..pos]
      invariant Concat(chunks) == h.fed
      invariant chunk == ReadAt(content, pos, ChunkSize)
      invariant forall i :: 0 <= i < |chunks| ==> 0 < |chunks[i]| <= ChunkSize
      invariant forall i :: 0 <= i < |chunks| - 1 ==> |chunks[i]| == ChunkSize
      invariant 0 < |chunks| && |chunks[|chunks| - 1]| < ChunkSize ==> pos == |content|
      decreases |content| - pos
    {
      h := Update(h, chunk);
      ConcatSnoc(chunks, chunk);
      chunks := chunks + [chunk];
      pos := pos + |chunk|;
      chunk := ReadAt(content, pos, ChunkSize);
    }
    assert content[..pos] == content;
    digest := HexDigest(h, hash);
  }

  /** `iter(lambda: f.read(65536), b"")` started at offset `pos`: the chunks
      produced before the empty sentinel. */
  function IterChunks(content: Bytes, pos: nat): (r: seq<Bytes>)
    requires pos <= |content|
    decreases |content| - pos
  {
    var chunk := ReadAt(content, pos, ChunkSize);
    if chunk == [] then [] else [chunk] + IterChunks(content, pos + |chunk|)
  }

  /** The `for` loop feeding every chunk to `update`. */
  function FeedAll(h: HashState, chunks: seq<Bytes>): HashState
    decreases |chunks|
  {
    if chunks == [] then h else FeedAll(Update(h, chunks[0]), chunks[1..])
  }

  lemma {:induction false} IterChunksCover(content: Bytes, pos: nat)
    requires pos <= |content|
    ensures Concat(IterChunks(content, pos)) == content[pos..]
    decreases |content| - pos
  {
    var chunk := ReadAt(content, pos, ChunkSize);
    if chunk != [] {
      var rest := IterChunks(content, pos + |chunk|);
      assert IterChunks(content, pos) == [chunk] + rest;
      assert ([chunk] + rest)[1..] == rest;
      IterChunksCover(content, pos + |chunk|);
      assert content[pos..] == chunk + content[pos + |chunk|..];
    }
  }

  lemma {:induction false} FeedAllAppends(h: HashState, chunks: seq<Bytes>)
    ensures FeedAll(h, chunks).fed == h.fed + Concat(chunks)
    decreases |chunks|
  {
    if chunks != [] {
      FeedAllAppends(Update(h, chunks[0]), chunks[1..]);
    }
  }

  /** The loop of src/snapshot.py:19-24: the digest it returns is the hash of
      the file's whole contents. */
  function Sha256FileIter(content: Bytes, hash: Hasher): (d: Digest)
    ensures d == hash(content)
  {
    var chunks := IterChunks(content, 0);
    IterChunksCover(content, 0);
    FeedAllAppends(HashState([]), chunks);
    assert content[0..] == content;
    assert FeedAll(HashState([]), chunks).fed == content;
    HexDigest(FeedAll(HashState([]), chunks), hash)
  }

  /** `sha256_file(path)` on the tree: the hex digest of the file, or the
      exception opening it raises. */
  function FileDigest(tree: Tree, p: Path, hash: Hasher): (r: Result<Digest>)
    ensures r.Success? <==> Readable(tree, p)
    ensures r.Success? ==> r.value == hash(tree[p].data)
    ensures r.Failure? ==> r == ReadFile(tree, p).PropagateFailure()
  {
    var data :- ReadFile(tree, p);
    Success(Sha256FileIter(data, hash))
  }
}
