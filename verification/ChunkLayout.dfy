/** Streams cut into chunks, and the index records that say where each chunk ends. */
module ChunkLayout {
  import opened Bytes

  /** A SHA-256 value, 32 bytes long when it is one. */
  type Digest = bytes

  /** One dynamic index record; `offset` is where the chunk ends in the stream. */
  datatype Record = Record(offset: nat, digest: Digest)

  function ChunkStart(records: seq<Record>, i: nat): nat
    requires i < |records|
  {
    if i == 0 then 0 else records[i - 1].offset
  }

  /** The records are the end offsets of these non-empty chunks, in order. */
  predicate Describes(records: seq<Record>, chunks: seq<bytes>) {
    && |records| == |chunks|
    && (forall i | 0 <= i < |chunks| :: chunks[i] != [] && records[i].offset == |Flatten(chunks[..i + 1])|)
  }

  lemma PrefixBytes(chunks: seq<bytes>, i: nat)
    requires i <= |chunks|
    ensures Flatten(chunks) == Flatten(chunks[..i]) + Flatten(chunks[i..])
    ensures i < |chunks| ==> Flatten(chunks[..i + 1]) == Flatten(chunks[..i]) + chunks[i]
  {
    hide Flatten;
    assert chunks == chunks[..i] + chunks[i..];
    FlattenAppend(chunks[..i], chunks[i..]);
    if i < |chunks| {
      assert chunks[..i + 1] == chunks[..i] + [chunks[i]];
      FlattenOne(chunks[..i], chunks[i]);
    }
  }

  /** Chunk `i` is the stretch of the stream its record and the one before it mark off. */
  lemma ChunkIsStretch(records: seq<Record>, chunks: seq<bytes>, i: nat)
    requires Describes(records, chunks) && i < |records|
    ensures ChunkStart(records, i) == |Flatten(chunks[..i])| < records[i].offset <= |Flatten(chunks)|
    ensures Flatten(chunks)[ChunkStart(records, i)..records[i].offset] == chunks[i]
  {
    PrefixBytes(chunks, i);
    PrefixBytes(chunks, i + 1);
    assert chunks[..0] == [];
    if i > 0 { assert records[i - 1].offset == |Flatten(chunks[..i - 1 + 1])|; }
    var whole := Flatten(chunks);
    assert whole == (Flatten(chunks[..i]) + chunks[i]) + Flatten(chunks[i + 1..]);
  }

  lemma {:induction false} OffsetsGrow(records: seq<Record>, chunks: seq<bytes>, i: nat, j: nat)
    requires Describes(records, chunks) && i < j < |records|
    ensures records[i].offset <= ChunkStart(records, j) < records[j].offset
    decreases j
  {
    ChunkIsStretch(records, chunks, j);
    if i + 1 < j {
      OffsetsGrow(records, chunks, i, j - 1);
    }
  }

  lemma EndOfLast(records: seq<Record>, chunks: seq<bytes>)
    requires Describes(records, chunks) && records != []
    ensures records[|records| - 1].offset == |Flatten(chunks)|
  {
    assert chunks[..|chunks|] == chunks;
  }
}
