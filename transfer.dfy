/** Reading a file for RETR in 1 MiB pieces (`readFileDataAndSend`). */
module Transfer {
  import opened Text

  /** The size of every read buffer (`1 << 20`). */
  const CHUNK: nat := 0x10_0000

  /** One `read` of CHUNK bytes: what it produced, where the stream now is,
      and whether it hit end-of-file. */
  datatype Read = Read(chunk: seq<byte>, pos: nat, eof: bool)

  /** `fileStream_.read(buffer, 1 << 20)` from `pos`: at most CHUNK bytes;
      the eof bit is set exactly when fewer than CHUNK bytes were left, so a
      read that exactly empties the file does not set it. */
  function ReadChunk(content: seq<byte>, pos: nat): (r: Read)
    requires pos <= |content|
    ensures r.pos == pos + |r.chunk| <= |content|
    ensures r.chunk == content[pos..r.pos]
    ensures r.eof <==> |content| - pos < CHUNK
    ensures r.eof ==> r.pos == |content|
    ensures !r.eof ==> |r.chunk| == CHUNK
  {
    if |content| - pos < CHUNK then Read(content[pos..], |content|, true)
    else Read(content[pos..pos + CHUNK], pos + CHUNK, false)
  }

  /** The buffers one transfer produces: reads from `pos` until one sets eof. */
  function Chunks(content: seq<byte>, pos: nat): (cs: seq<seq<byte>>)
    requires pos <= |content|
    ensures |cs| >= 1
    ensures forall i :: 0 <= i < |cs| - 1 ==> |cs[i]| == CHUNK
    ensures |cs[|cs| - 1]| < CHUNK
    decreases |content| - pos
  {
    var r := ReadChunk(content, pos);
    if r.eof then [r.chunk] else [r.chunk] + Chunks(content, r.pos)
  }

  function Flatten(cs: seq<seq<byte>>): seq<byte> {
    if cs == [] then [] else cs[0] + Flatten(cs[1..])
  }

  lemma FlattenAppend(a: seq<seq<byte>>, b: seq<seq<byte>>)
    ensures Flatten(a + b) == Flatten(a) + Flatten(b)
  {
    if a != [] {
      assert (a + b)[1..] == a[1..] + b;
    } else {
      assert a + b == b;
    }
  }

  /** The buffers of a transfer, put together, are the file from `pos` on. */
  lemma {:induction false} ChunksCover(content: seq<byte>, pos: nat)
    requires pos <= |content|
    ensures Flatten(Chunks(content, pos)) == content[pos..]
    decreases |content| - pos
  {
    var r := ReadChunk(content, pos);
    if !r.eof {
      ChunksCover(content, r.pos);
      assert content[pos..] == r.chunk + content[r.pos..];
    }
  }

  /** Every buffer but the last is full, and the last is short; so a file
      whose size is a multiple of CHUNK ends with an empty buffer. */
  lemma {:induction false} ChunkSizes(content: seq<byte>, pos: nat)
    requires pos <= |content|
    ensures var cs := Chunks(content, pos);
      && |cs| == (|content| - pos) / CHUNK + 1
      && (forall i :: 0 <= i < |cs| - 1 ==> |cs[i]| == CHUNK)
      && |cs[|cs| - 1]| == (|content| - pos) % CHUNK
    decreases |content| - pos
  {
    var r := ReadChunk(content, pos);
    if !r.eof {
      ChunkSizes(content, r.pos);
      assert |content| - pos == (|content| - r.pos) + CHUNK;
    }
  }
}
