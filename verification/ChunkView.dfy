/**
 Restore by index: payloads are read through a set of loaded chunks that is filled
 and pruned from target to target.
 */
module ChunkViews {
  import opened Bytes
  import opened PxarFormat
  import opened ChunkLayout

  datatype ViewError = ReadBeyondBlocks | BlockNotLoaded | EmptyBlock | InvalidPayload | SizeMismatch | ChunkMissing

  datatype Result<+T> = Ok(value: T) | Err(error: ViewError)

  /** The chunk's stretch meets the range from `start` to `end`. */
  predicate Overlaps(records: seq<Record>, i: nat, start: nat, end: nat)
    requires i < |records|
  {
    start < records[i].offset && end > ChunkStart(records, i)
  }

  method ChunkIndicesForRange(records: seq<Record>, start: nat, end: nat) returns (out: seq<nat>)
    ensures forall i <- out :: i < |records| && Overlaps(records, i, start, end)
    ensures end > start ==> forall i: nat | i < |records| && Overlaps(records, i, start, end) :: i in out
    ensures forall a, b | 0 <= a < b < |out| :: out[a] < out[b]
  {
    out := [];
    if end <= start || records == [] { return; }
    var prev := 0;
    for i := 0 to |records|
      invariant prev == if i == 0 then 0 else records[i - 1].offset
      invariant forall k <- out :: k < i && Overlaps(records, k, start, end)
      invariant forall k: nat | k < i && Overlaps(records, k, start, end) :: k in out
      invariant forall a | 0 <= a < |out| :: out[a] < i
      invariant forall a, b | 0 <= a < b < |out| :: out[a] < out[b]
    {
      var chunkEnd := records[i].offset;
      if start < chunkEnd && end > prev { out := out + [i]; }
      prev := chunkEnd;
    }
  }

  class ChunkView {
    const records: seq<Record>
    ghost const pieces: seq<bytes>
    var chunks: map<nat, bytes>

    /** What is loaded is right. */
    ghost predicate Valid()
      reads this
    {
      && Describes(records, pieces)
      && forall i <- chunks :: i < |records| && chunks[i] == pieces[i]
    }

    ghost function Stream(): bytes {
      Flatten(pieces)
    }

    /** Every chunk that meets the range is loaded. */
    ghost predicate Covers(start: nat, end: nat)
      reads this
    {
      forall i: nat | i < |records| && Overlaps(records, i, start, end) :: i in chunks
    }

    lemma CoversPart(start: nat, end: nat, a: nat, b: nat)
      requires Covers(start, end) && start <= a && b <= end
      ensures Covers(a, b)
    {
      forall i: nat | i < |records| && Overlaps(records, i, a, b)
        ensures i in chunks
      {
        assert Overlaps(records, i, start, end);
      }
    }

    constructor (records: seq<Record>, ghost pieces: seq<bytes>)
      requires Describes(records, pieces)
      ensures Valid() && this.records == records && this.pieces == pieces && chunks == map[]
    {
      this.records := records;
      this.pieces := pieces;
      chunks := map[];
    }

    method Add(index: nat, data: bytes)
      requires Valid() && index < |records| && data == pieces[index]
      modifies this
      ensures Valid() && chunks == old(chunks)[index := data]
    {
      chunks := chunks[index := data];
    }

    /** A loaded chunk and its place in the stream. */
    lemma LoadedChunk(i: nat)
      requires Valid() && i < |records|
      ensures ChunkStart(records, i) < records[i].offset <= |Stream()|
      ensures |pieces| == |records| && Stream()[ChunkStart(records, i)..records[i].offset] == pieces[i]
    {
      ChunkIsStretch(records, pieces, i);
    }

    /** The chunk in which offset `off` lies. */
    method Locate(off: nat) returns (found: bool, index: nat, chunkStart: nat, chunkEnd: nat)
      requires Valid()
      ensures found <==> off < |Stream()|
      ensures found ==> index < |records| && chunkStart == ChunkStart(records, index)
                        && chunkEnd == records[index].offset && chunkStart <= off < chunkEnd
    {
      var prev := 0;
      for i := 0 to |records|
        invariant prev == (if i == 0 then 0 else records[i - 1].offset) && prev <= off
      {
        if off < records[i].offset {
          ChunkIsStretch(records, pieces, i);
          return true, i, prev, records[i].offset;
        }
        prev := records[i].offset;
      }
      if records != [] { EndOfLast(records, pieces); }
      return false, 0, 0, 0;
    }

    /** Right whenever it answers, and it answers when the range is in the stream and loaded. */
    method ReadAt(off: nat, n: nat) returns (r: Result<bytes>)
      requires Valid()
      ensures r.Ok? && n > 0 ==> off + n <= |Stream()|
      ensures r.Ok? ==> r.value == if n == 0 then [] else Stream()[off..off + n]
      ensures n == 0 || (off + n <= |Stream()| && Covers(off, off + n)) ==> r.Ok?
      ensures r.Err? ==> r.error != ChunkMissing
    {
      hide Flatten, Describes, Stream;
      if n == 0 { return Ok([]); }
      ghost var stream := Stream();
      var out := new byte[n];
      var written, remaining, pos := 0, n, off;
      while remaining > 0
        invariant 0 <= written && 0 <= remaining && written + remaining == n && pos == off + written
        invariant written > 0 ==> pos <= |stream|
        invariant written > 0 ==> out[..written] == stream[off..pos]
        decreases remaining
      {
        var found, idx, chunkStart, chunkEnd := Locate(pos);
        if !found { return Err(ReadBeyondBlocks); }
        if idx !in chunks {
          assert Overlaps(records, idx, off, off + n);
          return Err(BlockNotLoaded);
        }
        LoadedChunk(idx);
        var chunk := chunks[idx];
        var inChunk := pos - chunkStart;
        var avail := chunkEnd - chunkStart - inChunk;
        var nCopy := remaining;
        if nCopy > avail { nCopy := avail; }
        PartOfStretch(stream, chunkStart, chunkEnd, inChunk, nCopy);
        assert out[..written] == stream[off..pos];
        CopyInto(out, written, chunk[inChunk..inChunk + nCopy]);
        StretchMeets(stream, off, pos, pos + nCopy);
        assert out[..written + nCopy] == stream[off..pos + nCopy];
        written := written + nCopy;
        remaining := remaining - nCopy;
        pos := pos + nCopy;
      }
      assert out[..] == out[..n];
      return Ok(out[..]);
    }

    /** Drops what ends before `minOffset`, and the last chunk whether it does or not. */
    method PruneBefore(minOffset: nat)
      requires Valid()
      modifies this
      ensures Valid()
      ensures chunks == map i <- old(chunks) | i + 1 < |records| && records[i].offset > minOffset :: old(chunks)[i]
    {
      hide Flatten, Describes;
      var left := chunks.Keys;
      while left != {}
        invariant Valid() && left <= old(chunks).Keys
        invariant chunks == map i <- old(chunks)
          | i in left || (i + 1 < |records| && records[i].offset > minOffset) :: old(chunks)[i]
        decreases |left|
      {
        var i :| i in left;
        if i + 1 >= |records| {
          chunks := chunks - {i};
        } else if records[i].offset <= minOffset {
          chunks := chunks - {i};
        }
        left := left - {i};
      }
    }

    /** The target's position is where the stream holds `data`. */
    ghost predicate Holds(pos: FilePos, data: bytes) {
      pos.size == |data| && |data| + 16 <= MAX_INT && At(Stream(), pos.offset, Block(PAYLOAD, data))
    }

    method ExtractPayload(pos: FilePos, ghost data: bytes) returns (r: Result<bytes>)
      requires Valid()
      ensures Holds(pos, data) && Covers(pos.offset, pos.offset + 16 + pos.size) ==> r == Ok(data)
      ensures Holds(pos, data) && r.Ok? ==> r.value == data
      ensures r.Err? ==> r.error != ChunkMissing
    {
      hide Flatten, Describes, Stream, FromLE, ToLE, At, Block;
      if Holds(pos, data) {
        HeaderSeen(Stream(), pos.offset, data);
        assert |data| == 0 ==> data == [];
        if Covers(pos.offset, pos.offset + 16 + pos.size) {
          CoversPart(pos.offset, pos.offset + 16 + pos.size, pos.offset, pos.offset + 16);
          CoversPart(pos.offset, pos.offset + 16 + pos.size, pos.offset + 16, pos.offset + 16 + pos.size);
        }
      }
      var hdr := ReadAt(pos.offset, 16);
      if hdr.Err? { return Err(hdr.error); }
      if U64(hdr.value, 0) != PAYLOAD { return Err(InvalidPayload); }
      var want := AsInt(U64(hdr.value, 8)) - 16;
      if want < 0 || want != pos.size { return Err(SizeMismatch); }
      r := ReadAt(pos.offset + 16, want);
    }
  }

  method CopyInto(out: array<byte>, at: nat, part: bytes)
    requires at + |part| <= out.Length
    modifies out
    ensures out[..at + |part|] == old(out[..at]) + part
  {
    forall j | 0 <= j < |part| {
      out[at + j] := part[j];
    }
    assert out[..at] == old(out[..at]);
  }

  lemma PartOfStretch(s: bytes, a: nat, b: nat, i: nat, n: nat)
    requires a <= b <= |s| && i + n <= b - a
    ensures s[a..b][i..i + n] == s[a + i..a + i + n]
  {
    var part, whole := s[a..b][i..i + n], s[a + i..a + i + n];
    forall k | 0 <= k < n
      ensures part[k] == whole[k]
    {
    }
  }

  lemma StretchMeets(s: bytes, a: nat, b: nat, c: nat)
    requires a <= b <= c <= |s|
    ensures s[a..c] == s[a..b] + s[b..c]
  {
  }

  lemma HeaderSeen(stream: bytes, off: nat, data: bytes)
    requires At(stream, off, Block(PAYLOAD, data)) && |data| + 16 <= MAX_INT
    ensures off + 16 + |data| <= |stream|
    ensures U64(stream[off..off + 16], 0) == PAYLOAD && U64(stream[off..off + 16], 8) == 16 + |data|
    ensures stream[off + 16..off + 16 + |data|] == data
  {
    hide FromLE, ToLE;
    AtSplit(stream, off, BlockHeader(PAYLOAD, |data|), data);
    HeaderAt(stream, off, PAYLOAD, |data|);
    assert stream[off..off + 16][0..8] == stream[off..off + 8];
    assert stream[off..off + 16][8..16] == stream[off + 8..off + 16];
  }

  /** Each target's position is right: there the stream holds that file's block. */
  ghost predicate AllHold(stream: bytes, ordered: seq<FilePos>, files: seq<bytes>) {
    |files| == |ordered| && |stream| <= MAX_INT &&
    forall k | 0 <= k < |ordered| ::
      ordered[k].size == |files[k]| && At(stream, ordered[k].offset, Block(PAYLOAD, files[k]))
  }

  /** The positions an archive lists for its files are right. */
  lemma ListedPositionsHold(a: Archive, fs: seq<Located>, ordered: seq<FilePos>, files: seq<bytes>)
    requires |EncodeArchive(a)| <= MAX_INT && |ordered| == |files| == |fs|
    requires forall k | 0 <= k < |fs| :: fs[k] in ArchiveFiles(a) && ordered[k] == fs[k].pos && files[k] == fs[k].data
    ensures AllHold(EncodeArchive(a), ordered, files)
  {
    hide EncodeArchive, ArchiveFiles, Block;
    forall k | 0 <= k < |ordered|
      ensures ordered[k].size == |files[k]| && At(EncodeArchive(a), ordered[k].offset, Block(PAYLOAD, files[k]))
    {
      ArchiveFileIsWhereItSays(a, fs[k]);
    }
  }

  /** Whatever the server has under a record's digest is that record's chunk. */
  ghost predicate Serves(server: map<Digest, bytes>, records: seq<Record>, pieces: seq<bytes>)
    requires |records| == |pieces|
  {
    forall i | 0 <= i < |records| && records[i].digest in server :: server[records[i].digest] == pieces[i]
  }

  /**
   The restore loop. Chunks still missing for a target are fetched, the payload is taken
   out, and what lies before the next target is dropped. If the positions are right, then
   whatever their order each target gets its own data, and only a chunk missing on the
   server can make the restore fail.
   */
  method RestoreIndexed(records: seq<Record>, server: map<Digest, bytes>, ordered: seq<FilePos>,
                        ghost pieces: seq<bytes>, ghost files: seq<bytes>)
    returns (r: Result<seq<bytes>>)
    requires Describes(records, pieces) && Serves(server, records, pieces)
    ensures AllHold(Flatten(pieces), ordered, files) ==> r == Ok(files) || r == Err(ChunkMissing)
    ensures r == Err(ChunkMissing) ==> exists i :: 0 <= i < |records| && records[i].digest !in server
  {
    hide Flatten, Block, Describes;
    var view := new ChunkView(records, pieces);
    var payloads := [];
    ghost var good := AllHold(Flatten(pieces), ordered, files);
    for k := 0 to |ordered|
      invariant fresh(view) && view.Valid() && view.records == records && view.pieces == pieces
      invariant good ==> payloads == files[..k]
    {
      var pos := ordered[k];
      var end := pos.offset + 16 + pos.size;
      var needed := ChunkIndicesForRange(records, pos.offset, end);
      for j := 0 to |needed|
        invariant fresh(view) && view.Valid() && view.records == records && view.pieces == pieces
        invariant forall a | 0 <= a < j :: needed[a] in view.chunks
      {
        assert needed[j] in needed;
        if needed[j] !in view.chunks {
          if records[needed[j]].digest !in server { return Err(ChunkMissing); }
          view.Add(needed[j], server[records[needed[j]].digest]);
        }
      }
      forall i: nat | i < |records| && Overlaps(records, i, pos.offset, end)
        ensures i in view.chunks
      {
        var a :| 0 <= a < |needed| && needed[a] == i;
      }
      ghost var data := if good then files[k] else [];
      if good { FitsBlock(view.Stream(), pos.offset, data); }
      var payload := view.ExtractPayload(pos, data);
      if payload.Err? { return Err(payload.error); }
      payloads := payloads + [payload.value];
      if k + 1 < |ordered| { view.PruneBefore(ordered[k + 1].offset); }
    }
    assert good ==> files[..|files|] == files;
    return Ok(payloads);
  }

  lemma FitsBlock(stream: bytes, off: nat, data: bytes)
    requires At(stream, off, Block(PAYLOAD, data))
    ensures off + 16 + |data| <= |stream|
  {
  }
}
