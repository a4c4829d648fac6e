/** `fsx::file::stream_bytes`: open a file and hand out its bytes in chunks of at most
  * `chunk_size`, one read per chunk, until a read returns nothing. */
module StreamBytes {
  import opened Io
  import opened Text
  import opened Fs
  import IoResultExt

  /** What the opened handle reads from: the file's bytes, or a handle on which every read
    * fails (a directory opens for reading, but reading it fails). */
  datatype Source = Bytes(data: seq<Byte>) | Broken(error: IoError)

  /** `File::open` for reading: a missing or forbidden path fails with the system's error;
    * a regular file yields its bytes; a directory opens but cannot be read; anything else
    * fails. */
  function OpenRead(st: FsState, p: Path): (r: Result<Source>)
    ensures r.Ok? && r.value.Bytes? <==> IsFile(st, p)
    ensures r.Ok? && r.value.Bytes? ==> r.value.data == ReadFile(st, p).value
    ensures Metadata(st, p).Err? ==> r == Err(Metadata(st, p).error)
  {
    match Metadata(st, p)
    case Err(e) => Err(e)
    case Ok(File(d, _)) => Ok(Bytes(d))
    case Ok(Dir) => Ok(Broken(OsError(IsADirectory)))
    case Ok(_) => Err(OsError(Other))
  }

  /** The error a zero chunk size gives. */
  const ZeroChunk := IoError(InvalidInput, "chunk_size must be > 0")

  function OpenFailed(p: Path, e: IoError): (r: IoError)
    ensures r.kind == e.kind
    ensures "Failed to open file '" + Display(p) + "'" <= r.msg
  {
    IoResultExt.Ctx(e, "Failed to open file", p)
  }

  function ChunkFailed(p: Path, e: IoError): (r: IoError)
    ensures r.kind == e.kind
    ensures "Failed to read chunk from '" + Display(p) + "'" <= r.msg
  {
    IoResultExt.Ctx(e, "Failed to read chunk from", p)
  }

  /** What `stream_bytes` does before handing out the iterator: refuse a zero chunk size
    * before touching the file, then open the file, naming the path on failure. */
  function Open(st: FsState, p: Path, chunkSize: nat): (r: Result<Source>)
    ensures chunkSize == 0 ==> r == Err(ZeroChunk)
    ensures chunkSize > 0 && OpenRead(st, p).Err? ==> r == Err(OpenFailed(p, OpenRead(st, p).error))
    ensures chunkSize > 0 && OpenRead(st, p).Ok? ==> r == OpenRead(st, p)
  {
    if chunkSize == 0 then Err(ZeroChunk)
    else match OpenRead(st, p)
      case Err(e) => Err(OpenFailed(p, e))
      case Ok(s) => Ok(s)
  }

  /** How many bytes one `read` into a buffer of `chunk` bytes returns when `remaining`
    * bytes are left: none only at the end of the file; otherwise at least one and at most
    * what fits and what is left. The system may return fewer; `grant` is how many it
    * offers this time. */
  function ReadCount(chunk: nat, remaining: nat, grant: nat): (n: nat)
    requires chunk > 0
    ensures n == 0 <==> remaining == 0
    ensures n <= chunk && n <= remaining
    ensures grant >= chunk && grant >= remaining ==> n == (if chunk < remaining then chunk else remaining)
  {
    if remaining == 0 then 0
    else
      var most := if chunk < remaining then chunk else remaining;
      if grant < 1 then 1 else if grant < most then grant else most
  }

  /** One call of the iterator: `None` at the end of the file, a chunk, or the read's error
    * with the path named; and the position after it. */
  datatype Step = Step(item: Option<Result<seq<Byte>>>, pos: nat)

  /** The specification of `next`: a failing read (the handle's own failure or one the
    * system reports now, `fault`) yields the error and leaves the position; otherwise the
    * next `ReadCount` bytes, or `None` when there are none. */
  function NextStep(src: Source, pos: nat, chunk: nat, path: Path, grant: nat, fault: Option<IoError>): (s: Step)
    requires chunk > 0
    requires src.Bytes? ==> pos <= |src.data|
    ensures s.item.Some? && s.item.value.Ok? ==>
      src.Bytes? && 1 <= |s.item.value.value| <= chunk && pos < s.pos <= |src.data|
      && s.item.value.value == src.data[pos..s.pos]
    ensures s.item.None? <==> src.Bytes? && fault.None? && pos == |src.data|
    ensures s.item.Some? && s.item.value.Err? ==> s.pos == pos
    ensures src.Broken? ==> s == Step(Some(Err(ChunkFailed(path, src.error))), pos)
    ensures src.Bytes? && fault.Some? ==> s == Step(Some(Err(ChunkFailed(path, fault.value))), pos)
  {
    match src
    case Broken(e) => Step(Some(Err(ChunkFailed(path, e))), pos)
    case Bytes(data) =>
      match fault
      case Some(e) => Step(Some(Err(ChunkFailed(path, e))), pos)
      case None =>
        var n := ReadCount(chunk, |data| - pos, grant);
        if n == 0 then Step(None, pos) else Step(Some(Ok(data[pos..pos + n])), pos + n)
  }

  /** `ByteChunkIterator`: the handle, the buffer of `chunk_size` bytes each read fills,
    * and the path for error messages. The handle is its source and how far it has read. */
  class ByteChunkIterator {
    const src: Source
    var pos: nat
    const buffer: array<Byte>
    const path: Path

    predicate Valid()
      reads this
    {
      buffer.Length > 0 && (src.Bytes? ==> pos <= |src.data|)
    }

    /** `ByteChunkIterator::new`: a zeroed buffer of `chunk_size` bytes, nothing read yet. */
    constructor (src: Source, chunkSize: nat, path: Path)
      requires chunkSize > 0
      ensures Valid()
      ensures this.src == src && this.path == path && pos == 0
      ensures buffer.Length == chunkSize && fresh(buffer)
    {
      this.src := src;
      this.path := path;
      pos := 0;
      buffer := new Byte[chunkSize](_ => 0);
    }

    /** `next`: read into the buffer and hand out a copy of the bytes read. */
    method Next(grant: nat, fault: Option<IoError>) returns (r: Option<Result<seq<Byte>>>)
      requires Valid()
      modifies this, buffer
      ensures Valid()
      ensures Step(r, pos) == NextStep(src, old(pos), buffer.Length, path, grant, fault)
    {
      if src.Broken? {
        return Some(Err(ChunkFailed(path, src.error)));
      }
      if fault.Some? {
        return Some(Err(ChunkFailed(path, fault.value)));
      }
      var n := ReadCount(buffer.Length, |src.data| - pos, grant);
      if n == 0 {
        return None;
      }
      var k := 0;
      while k < n
        invariant 0 <= k <= n
        invariant forall j :: 0 <= j < k ==> buffer[j] == src.data[pos + j]
        modifies buffer
      {
        buffer[k] := src.data[pos + k];
        k := k + 1;
      }
      assert buffer[..n] == src.data[pos..pos + n];
      r := Some(Ok(buffer[..n]));
      pos := pos + n;
    }
  }

  /** `stream_bytes`: the checks and the open, then an iterator at the start of the file. */
  method Stream(st: FsState, p: Path, chunkSize: nat) returns (r: Result<ByteChunkIterator>)
    ensures r.Err? ==> Open(st, p, chunkSize).Err? && r.error == Open(st, p, chunkSize).error
    ensures r.Ok? ==> Open(st, p, chunkSize) == Ok(r.value.src) && fresh(r.value) && fresh(r.value.buffer)
    ensures r.Ok? ==> r.value.Valid() && r.value.pos == 0 && r.value.buffer.Length == chunkSize && r.value.path == p
  {
    var o := Open(st, p, chunkSize);
    if o.Err? {
      return Err(o.error);
    }
    var it := new ByteChunkIterator(o.value, chunkSize, p);
    r := Ok(it);
  }

  // ---------------------------------------------------------------- a whole stream

  /** The chunks handed out by successive calls, one grant per call and no read failing,
    * up to the first `None`; whether a `None` came; and the position reached. */
  datatype Run = Run(chunks: seq<seq<Byte>>, ended: bool, pos: nat)

  function Drain(data: seq<Byte>, pos: nat, chunk: nat, path: Path, grants: seq<nat>): (r: Run)
    requires chunk > 0 && pos <= |data|
    ensures pos <= r.pos <= |data|
    decreases |grants|
  {
    if grants == [] then Run([], false, pos)
    else
      var s := NextStep(Bytes(data), pos, chunk, path, grants[0], None);
      if s.item.None? then Run([], true, pos)
      else
        var rest := Drain(data, s.pos, chunk, path, grants[1..]);
        Run([s.item.value.value] + rest.chunks, rest.ended, rest.pos)
  }

  /** The chunks laid end to end. */
  function Concat(chunks: seq<seq<Byte>>): seq<Byte>
    decreases |chunks|
  {
    if chunks == [] then [] else chunks[0] + Concat(chunks[1..])
  }

  /** Read back to back, the chunks are the file's bytes from where reading began: once
    * the stream has ended they are all the rest of the file; every chunk is non-empty and
    * at most `chunk` bytes. */
  lemma {:induction false} DrainRebuilds(data: seq<Byte>, pos: nat, chunk: nat, path: Path, grants: seq<nat>)
    requires chunk > 0 && pos <= |data|
    ensures var r := Drain(data, pos, chunk, path, grants);
      Concat(r.chunks) == data[pos..r.pos] && (r.ended ==> r.pos == |data|)
      && forall i :: 0 <= i < |r.chunks| ==> 1 <= |r.chunks[i]| <= chunk
    decreases |grants|
  {
    if grants != [] {
      var s := NextStep(Bytes(data), pos, chunk, path, grants[0], None);
      if s.item.Some? {
        DrainRebuilds(data, s.pos, chunk, path, grants[1..]);
        var rest := Drain(data, s.pos, chunk, path, grants[1..]);
        var r := Drain(data, pos, chunk, path, grants);
        assert r.chunks[1..] == rest.chunks;
        assert data[pos..s.pos] + data[s.pos..rest.pos] == data[pos..rest.pos];
      }
    }
  }

  /** Each read gives at least one byte, so more calls than bytes left always reach the
    * end. */
  lemma {:induction false} DrainEnds(data: seq<Byte>, pos: nat, chunk: nat, path: Path, grants: seq<nat>)
    requires chunk > 0 && pos <= |data|
    requires |grants| > |data| - pos
    ensures Drain(data, pos, chunk, path, grants).ended
    decreases |grants|
  {
    var s := NextStep(Bytes(data), pos, chunk, path, grants[0], None);
    if s.item.Some? {
      DrainEnds(data, s.pos, chunk, path, grants[1..]);
    }
  }

  /** When the system always fills the buffer, every chunk but the last holds exactly
    * `chunk` bytes. */
  lemma {:induction false} FullReadsFillChunks(data: seq<Byte>, pos: nat, chunk: nat, path: Path, grants: seq<nat>)
    requires chunk > 0 && pos <= |data|
    requires forall i :: 0 <= i < |grants| ==> grants[i] >= |data|
    ensures var r := Drain(data, pos, chunk, path, grants);
      forall i :: 0 <= i < |r.chunks| - 1 ==> |r.chunks[i]| == chunk
    decreases |grants|
  {
    if grants != [] {
      var s := NextStep(Bytes(data), pos, chunk, path, grants[0], None);
      if s.item.Some? {
        FullReadsFillChunks(data, s.pos, chunk, path, grants[1..]);
        var rest := Drain(data, s.pos, chunk, path, grants[1..]);
        DrainRebuilds(data, s.pos, chunk, path, grants[1..]);
        if rest.chunks != [] {
          assert s.pos < |data|;
        }
      }
    }
  }
}
