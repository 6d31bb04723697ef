/** The byte-level helpers of the Rust engine (simulate.rs): splitting the
    firmware image into `chunk_size` windows and hashing each one, and the
    demonstration tamper that flips the first byte of one chunk.  The file is
    an in-memory byte sequence with a cursor; every read is a full read. */
module FirmwareFile {
  import opened Hashing

  function Min(a: nat, b: nat): nat
  {
    if a <= b then a else b
  }

  /** An open file: its bytes and the position of the next read or write. */
  class File {
    var contents: seq<Byte>
    var cursor: nat

    /** `File::open`: the cursor starts at the beginning. */
    constructor Open(data: seq<Byte>)
      ensures contents == data && cursor == 0
    {
      contents := data;
      cursor := 0;
    }

    /** `seek(SeekFrom::Start(offset))`; seeking past the end is allowed. */
    method Seek(offset: nat)
      modifies this`cursor
      ensures cursor == offset
    {
      cursor := offset;
    }

    /** `read(&mut buf)`: copies as many bytes as fit and remain, and returns
        how many; at or past the end it returns 0 and leaves `buf` alone. */
    method Read(buf: array<Byte>) returns (n: nat)
      modifies this`cursor, buf
      ensures n == if old(cursor) < |contents| then Min(buf.Length, |contents| - old(cursor)) else 0
      ensures cursor == old(cursor) + n
      ensures n > 0 ==> buf[..n] == contents[old(cursor)..old(cursor) + n]
      ensures buf[n..] == old(buf[n..])
    {
      n := if cursor < |contents| then Min(buf.Length, |contents| - cursor) else 0;
      forall k | 0 <= k < n {
        buf[k] := contents[cursor + k];
      }
      cursor := cursor + n;
    }

    /** `write_all(bytes)` at the cursor: overwrites what is there and extends
        the file if needed (a gap left by seeking past the end reads as zeros). */
    method WriteAll(bytes: seq<Byte>)
      modifies this
      ensures contents == Overwrite(old(contents), old(cursor), bytes)
      ensures cursor == old(cursor) + |bytes|
    {
      contents := Overwrite(contents, cursor, bytes);
      cursor := cursor + |bytes|;
    }
  }

  /** The contents after writing `bytes` at position `at`. */
  function Overwrite(data: seq<Byte>, at: nat, bytes: seq<Byte>): (r: seq<Byte>)
    ensures |r| == if at + |bytes| <= |data| then |data| else at + |bytes|
    ensures r[at..at + |bytes|] == bytes
    ensures forall j :: 0 <= j < |data| && !(at <= j < at + |bytes|) ==> r[j] == data[j]
  {
    var base := if at <= |data| then data else data + seq(at - |data|, _ => 0 as Byte);
    base[..at] + bytes + (if at + |bytes| < |base| then base[at + |bytes|..] else [])
  }

  /** The chunks a sequence of full reads of `size` bytes yields, in order;
      a read of zero bytes ends the sequence (so `size == 0` yields none). */
  function Chunks(data: seq<Byte>, size: nat): seq<seq<Byte>>
    decreases |data|
  {
    var n := Min(size, |data|);
    if n == 0 then [] else [data[..n]] + Chunks(data[n..], size)
  }

  /** The leaf sequence: one digest per chunk. */
  function LeafHashes(sha: HashFn, data: seq<Byte>, size: nat): seq<Digest>
    decreases |data|
  {
    var n := Min(size, |data|);
    if n == 0 then [] else [sha(data[..n])] + LeafHashes(sha, data[n..], size)
  }

  function Concat(chunks: seq<seq<Byte>>): seq<Byte>
  {
    if chunks == [] then [] else chunks[0] + Concat(chunks[1..])
  }

  /** The chunks put back together give the whole input. */
  lemma {:induction false} ChunksConcat(data: seq<Byte>, size: nat)
    requires size > 0
    ensures Concat(Chunks(data, size)) == data
    decreases |data|
  {
    var n := Min(size, |data|);
    if n > 0 {
      ChunksConcat(data[n..], size);
      assert data == data[..n] + data[n..];
    }
  }

  /** No chunk is empty, none is longer than `size`, and all but the last are
      exactly `size` long. */
  lemma {:induction false} ChunkSizes(data: seq<Byte>, size: nat)
    requires size > 0
    ensures forall k :: 0 <= k < |Chunks(data, size)| ==>
      0 < |Chunks(data, size)[k]| <= size &&
      (k < |Chunks(data, size)| - 1 ==> |Chunks(data, size)[k]| == size)
    decreases |data|
  {
    var n := Min(size, |data|);
    if n > 0 {
      ChunkSizes(data[n..], size);
      var rest := Chunks(data[n..], size);
      assert Chunks(data, size) == [data[..n]] + rest;
      assert rest != [] ==> n == size;
    }
  }

  /** The number of chunks is ceil(|data| / size): the least count whose
      chunks of `size` bytes cover the data. */
  lemma {:induction false} ChunkCount(data: seq<Byte>, size: nat)
    requires size > 0
    ensures |Chunks(data, size)| * size >= |data|
    ensures |Chunks(data, size)| > 0 ==> (|Chunks(data, size)| - 1) * size < |data|
    decreases |data|
  {
    var n := Min(size, |data|);
    if n > 0 {
      var c := |Chunks(data[n..], size)|;
      ChunkCount(data[n..], size);
      assert |Chunks(data, size)| == c + 1;
      assert (c + 1) * size == c * size + size;
      if c > 0 {
        assert c * size == (c - 1) * size + size;
      }
    }
  }

  /** Chunk k is the window that starts at byte k * size. */
  lemma {:induction false} ChunkAt(data: seq<Byte>, size: nat, k: nat)
    requires size > 0 && k < |Chunks(data, size)|
    ensures k * size < |data|
    ensures Chunks(data, size)[k] == data[k * size..Min((k + 1) * size, |data|)]
    decreases k
  {
    if k > 0 {
      var n := Min(size, |data|);
      var rest := data[n..];
      assert Chunks(data, size) == [data[..n]] + Chunks(rest, size);
      assert n == size;
      ChunkAt(rest, size, k - 1);
      ShiftWindow(data, size, k - 1);
    }
  }

  /** Window k - 1 of the data after its first `size` bytes is window k of the data. */
  lemma ShiftWindow(data: seq<Byte>, size: nat, j: nat)
    requires size < |data| && j * size < |data| - size
    ensures (j + 1) * size < |data|
    ensures data[size..][j * size..Min((j + 1) * size, |data| - size)]
         == data[(j + 1) * size..Min((j + 2) * size, |data|)]
  {
  }

  /** Leaf k is the digest of chunk k. */
  lemma {:induction false} LeafHashesOfChunks(sha: HashFn, data: seq<Byte>, size: nat)
    ensures |LeafHashes(sha, data, size)| == |Chunks(data, size)|
    ensures forall k :: 0 <= k < |Chunks(data, size)| ==>
      LeafHashes(sha, data, size)[k] == sha(Chunks(data, size)[k])
    decreases |data|
  {
    var n := Min(size, |data|);
    if n > 0 {
      LeafHashesOfChunks(sha, data[n..], size);
    }
  }

  /** One read's worth of LeafHashes over the unread suffix. */
  lemma LeafHashesStep(sha: HashFn, data: seq<Byte>, at: nat, size: nat, n: nat, chunk: seq<Byte>)
    requires at <= |data| && n == (if at < |data| then Min(size, |data| - at) else 0)
    requires n > 0 ==> chunk == data[at..at + n]
    ensures n == 0 ==> LeafHashes(sha, data[at..], size) == []
    ensures n > 0 ==>
      LeafHashes(sha, data[at..], size) == [sha(chunk)] + LeafHashes(sha, data[at + n..], size)
  {
    if n > 0 {
      assert data[at..][..n] == data[at..at + n];
      assert data[at..][n..] == data[at + n..];
    }
  }

  /** `leaf_hashes_from_file`: reads `chunk_size` bytes at a time into one
      buffer and hashes what each read returned, until a read returns 0. */
  method LeafHashesFromFile(sha: HashFn, f: File, chunkSize: nat) returns (hashes: seq<Digest>)
    requires f.cursor == 0
    modifies f`cursor
    ensures hashes == LeafHashes(sha, f.contents, chunkSize)
  {
    var buf := new Byte[chunkSize](_ => 0);
    hashes := [];
    while true
      invariant f.cursor <= |f.contents|
      invariant hashes + LeafHashes(sha, f.contents[f.cursor..], chunkSize) == LeafHashes(sha, f.contents, chunkSize)
      decreases |f.contents| - f.cursor
    {
      ghost var at := f.cursor;
      var n := f.Read(buf);
      var chunk := buf[..n];
      LeafHashesStep(sha, f.contents, at, chunkSize, n, chunk);
      if n == 0 {
        break;
      }
      hashes := hashes + [sha(chunk)];
    }
  }

  /** The file after `interactive_modify_chunk`: when chunk `chunkIndex` is not
      empty, its first byte is XORed with 0xFF; otherwise nothing changes. */
  function Tamper(data: seq<Byte>, chunkIndex: nat, chunkSize: nat): seq<Byte>
  {
    var offset := chunkIndex * chunkSize;
    if chunkSize > 0 && offset < |data| then data[offset := data[offset] ^ 0xFF] else data
  }

  /** `interactive_modify_chunk`: seek to the chunk, read it, flip its first
      byte, seek back and write the bytes read. */
  method ModifyChunk(f: File, chunkIndex: nat, chunkSize: nat)
    modifies f
    ensures f.contents == Tamper(old(f.contents), chunkIndex, chunkSize)
  {
    var offset := chunkIndex * chunkSize;
    f.Seek(offset);
    var buf := new Byte[chunkSize](_ => 0);
    var n := f.Read(buf);
    if n == 0 {
      return;
    }
    ghost var read := buf[..n];
    buf[0] := buf[0] ^ 0xFF;
    f.Seek(offset);
    FlipByOverwrite(f.contents, offset, read);
    f.WriteAll(buf[..n]);
  }

  /** Writing back a chunk read from `at` with its first byte flipped flips
      that one byte of the file. */
  lemma FlipByOverwrite(data: seq<Byte>, at: nat, read: seq<Byte>)
    requires 0 < |read| && at + |read| <= |data| && read == data[at..at + |read|]
    ensures Overwrite(data, at, read[0 := read[0] ^ 0xFF]) == data[at := data[at] ^ 0xFF]
  {
  }

  /** Exactly the first byte of the chunk changes, to a different value, when
      the chunk exists; nothing changes otherwise. */
  lemma TamperFlipsOneByte(data: seq<Byte>, chunkIndex: nat, chunkSize: nat)
    ensures |Tamper(data, chunkIndex, chunkSize)| == |data|
    ensures forall j :: 0 <= j < |data| && j != chunkIndex * chunkSize ==>
      Tamper(data, chunkIndex, chunkSize)[j] == data[j]
    ensures chunkSize > 0 && chunkIndex * chunkSize < |data| ==>
      Tamper(data, chunkIndex, chunkSize)[chunkIndex * chunkSize] != data[chunkIndex * chunkSize]
    ensures !(chunkSize > 0 && chunkIndex * chunkSize < |data|) ==>
      Tamper(data, chunkIndex, chunkSize) == data
  {
  }

  /** Tampering the same chunk twice restores the original bytes. */
  lemma TamperTwiceRestores(data: seq<Byte>, chunkIndex: nat, chunkSize: nat)
    ensures Tamper(Tamper(data, chunkIndex, chunkSize), chunkIndex, chunkSize) == data
  {
  }

  /** Windows of `size` bytes at different chunk positions do not overlap:
      the start of window `ci` lies outside window `k`. */
  lemma WindowsDisjoint(k: nat, ci: nat, size: nat)
    requires size > 0 && k != ci
    ensures ci * size < k * size || (k + 1) * size <= ci * size
  {
  }

  /** Tampering chunk `chunkIndex` keeps the chunk boundaries and every other
      chunk as they were. */
  lemma TamperKeepsOtherChunks(data: seq<Byte>, chunkIndex: nat, chunkSize: nat)
    requires chunkSize > 0
    ensures |Chunks(Tamper(data, chunkIndex, chunkSize), chunkSize)| == |Chunks(data, chunkSize)|
    ensures forall k :: 0 <= k < |Chunks(data, chunkSize)| && k != chunkIndex ==>
      Chunks(Tamper(data, chunkIndex, chunkSize), chunkSize)[k] == Chunks(data, chunkSize)[k]
  {
    var t := Tamper(data, chunkIndex, chunkSize);
    ChunkCountSameLength(data, t, chunkSize);
    forall k | 0 <= k < |Chunks(data, chunkSize)| && k != chunkIndex
      ensures Chunks(t, chunkSize)[k] == Chunks(data, chunkSize)[k]
    {
      ChunkAt(data, chunkSize, k);
      ChunkAt(t, chunkSize, k);
      WindowsDisjoint(k, chunkIndex, chunkSize);
      var lo, hi := k * chunkSize, Min((k + 1) * chunkSize, |data|);
      SliceUntouched(data, chunkIndex, chunkSize, lo, hi);
    }
  }

  /** A slice that does not contain the flipped byte is unchanged. */
  lemma SliceUntouched(data: seq<Byte>, chunkIndex: nat, chunkSize: nat, lo: nat, hi: nat)
    requires lo <= hi <= |data|
    requires chunkIndex * chunkSize < lo || hi <= chunkIndex * chunkSize
    ensures Tamper(data, chunkIndex, chunkSize)[lo..hi] == data[lo..hi]
  {
  }

  /** Hence every leaf digest but the tampered chunk's is unchanged. */
  lemma TamperKeepsOtherLeaves(sha: HashFn, data: seq<Byte>, chunkIndex: nat, chunkSize: nat)
    requires chunkSize > 0
    ensures |LeafHashes(sha, Tamper(data, chunkIndex, chunkSize), chunkSize)| == |LeafHashes(sha, data, chunkSize)|
    ensures forall k :: 0 <= k < |LeafHashes(sha, data, chunkSize)| && k != chunkIndex ==>
      LeafHashes(sha, Tamper(data, chunkIndex, chunkSize), chunkSize)[k] == LeafHashes(sha, data, chunkSize)[k]
  {
    var t := Tamper(data, chunkIndex, chunkSize);
    TamperKeepsOtherChunks(data, chunkIndex, chunkSize);
    LeafHashesOfChunks(sha, data, chunkSize);
    LeafHashesOfChunks(sha, t, chunkSize);
  }

  /** The chunk count depends only on the length of the data. */
  lemma {:induction false} ChunkCountSameLength(a: seq<Byte>, b: seq<Byte>, size: nat)
    requires |a| == |b|
    ensures |Chunks(a, size)| == |Chunks(b, size)|
    decreases |a|
  {
    var n := Min(size, |a|);
    if n > 0 {
      ChunkCountSameLength(a[n..], b[n..], size);
    }
  }
}
