/** Random access into an archive: the block readers, the skips and the descent by goodbye tables. */
module PxarRead {
  import opened Bytes
  import opened PxarFormat
  import opened Paths
  import opened GoodbyeSearch

  /** `Panics` is a slice index out of range; `GoesBack` a length that sends the reader backwards. */
  datatype ReadError =
    | FilenameHeader | FilenameData | FilenameTerminator
    | EntryHeader | ExpectedEntry | EntryData
    | BlockHeaderCut | BlockData | PayloadHeaderCut | ExpectedPayload | PayloadData
    | SkipDirEof | SkipDirBlock | ScanEof | ScanBlock | GoodbyeMissing
    | GoodbyeHeader | GoodbyeExpected | GoodbyeData | GoodbyeItems
    | FileNotFound | OffsetOut | InvalidPos | NameMismatch | IsDirectory | NotDirectory | PathEmpty
    | Panics | GoesBack

  datatype Result<+T> = Ok(value: T) | Err(error: ReadError) {
    predicate IsFailure() { Err? }
    function PropagateFailure<U>(): Result<U>
      requires Err?
    {
      Err(error)
    }
    function Extract(): T
      requires Ok?
    {
      value
    }
  }

  function ReadFilename(data: bytes, pos: nat): (r: Result<(bytes, nat)>)
    ensures r.Ok? ==> pos + 17 <= r.value.1 <= |data|
  {
    if pos + 16 > |data| then Err(FilenameHeader)
    else
      var len := AsInt(U64(data, pos + 8));
      if len < 17 then Err(FilenameData)
      else if pos + len > MAX_INT then Err(Panics)
      else if pos + len > |data| then Err(FilenameData)
      else if data[pos + len - 1] != 0 then Err(FilenameTerminator)
      else Ok((data[pos + 16..pos + len - 1], pos + len))
  }

  function ReadEntry(data: bytes, pos: nat): (r: Result<(nat, nat)>)
    ensures r.Ok? ==> pos + 16 <= r.value.1 <= |data|
  {
    if pos + 16 > |data| then Err(EntryHeader)
    else if U64(data, pos) != ENTRY then Err(ExpectedEntry)
    else
      var len := AsInt(U64(data, pos + 8));
      if len < 16 then Err(EntryData)
      else if pos + len > MAX_INT then Err(Panics)
      else if pos + len > |data| then Err(EntryData)
      else if pos + 24 > |data| then Err(Panics)
      else Ok((U64(data, pos + 16), pos + len))
  }

  /** The end of the block at `pos`. */
  function ReadBlock(data: bytes, pos: nat): (r: Result<nat>)
    ensures r.Ok? ==> pos <= r.value <= |data|
  {
    if pos + 16 > |data| then Err(BlockHeaderCut)
    else
      var len := AsInt(U64(data, pos + 8));
      if len < 0 || pos + len > MAX_INT then Err(GoesBack)
      else if pos + len > |data| then Err(BlockData)
      else Ok(pos + len)
  }

  function ReadPayload(data: bytes, pos: nat): Result<bytes> {
    if pos + 16 > |data| then Err(PayloadHeaderCut)
    else if U64(data, pos) != PAYLOAD then Err(ExpectedPayload)
    else
      var len := AsInt(U64(data, pos + 8));
      if len < 16 || pos + len > MAX_INT then Err(Panics)
      else if pos + len > |data| then Err(PayloadData)
      else Ok(data[pos + 16..pos + len])
  }

  /** The name and the entry of the child at `pos`: mode and where its body starts. */
  function ReadHead(data: bytes, pos: nat): (r: Result<(bytes, nat, nat)>)
    ensures r.Ok? ==> pos < r.value.2 <= |data|
  {
    var (name, p1) :- ReadFilename(data, pos);
    var (mode, p2) :- ReadEntry(data, p1);
    Ok((name, mode, p2))
  }

  function SkipDir(data: bytes, pos: nat): (r: Result<nat>)
    ensures r.Ok? ==> pos <= r.value
    decreases if pos < |data| then |data| - pos else 0, 0
  {
    if pos >= |data| then Ok(pos)
    else if pos + 8 > |data| then Err(SkipDirEof)
    else if U64(data, pos) == GOODBYE then ReadBlock(data, pos)
    else if U64(data, pos) != FILENAME then Err(SkipDirBlock)
    else
      var (_, mode, body) :- ReadHead(data, pos);
      var next :- SkipBody(data, mode, body);
      SkipDir(data, next)
  }

  function SkipBody(data: bytes, mode: nat, body: nat): (r: Result<nat>)
    requires body <= |data|
    ensures r.Ok? ==> body <= r.value
    decreases |data| - body, 1
  {
    if IsDirMode(mode) then SkipDir(data, body) else ReadBlock(data, body)
  }

  method SkipDirectoryContents(data: bytes, start: nat) returns (r: Result<nat>)
    ensures r == SkipDir(data, start)
    decreases if start < |data| then |data| - start else 0
  {
    var pos := start;
    while pos < |data|
      invariant start <= pos && SkipDir(data, start) == SkipDir(data, pos)
      decreases |data| - pos
    {
      if pos + 8 > |data| { return Err(SkipDirEof); }
      var hdr := U64(data, pos);
      if hdr == GOODBYE { return ReadBlock(data, pos); }
      if hdr != FILENAME { return Err(SkipDirBlock); }
      var head := ReadHead(data, pos);
      if head.Err? { return Err(head.error); }
      var next;
      if IsDirMode(head.value.1) {
        next := SkipDirectoryContents(data, head.value.2);
      } else {
        next := ReadBlock(data, head.value.2);
      }
      if next.Err? { return Err(next.error); }
      pos := next.value;
    }
    return Ok(pos);
  }

  function Scan(data: bytes, pos: nat): (r: Result<nat>)
    ensures r.Ok? ==> pos <= r.value && r.value + 8 <= |data|
    decreases if pos < |data| then |data| - pos else 0
  {
    if pos >= |data| then Err(GoodbyeMissing)
    else if pos + 8 > |data| then Err(ScanEof)
    else if U64(data, pos) == GOODBYE then Ok(pos)
    else if U64(data, pos) != FILENAME then Err(ScanBlock)
    else
      var (_, mode, body) :- ReadHead(data, pos);
      var next :- SkipBody(data, mode, body);
      Scan(data, next)
  }

  method ScanToGoodbye(data: bytes, start: nat) returns (r: Result<nat>)
    ensures r == Scan(data, start)
  {
    var pos := start;
    while pos < |data|
      invariant start <= pos && Scan(data, start) == Scan(data, pos)
      decreases |data| - pos
    {
      if pos + 8 > |data| { return Err(ScanEof); }
      var hdr := U64(data, pos);
      if hdr == GOODBYE { return Ok(pos); }
      if hdr != FILENAME { return Err(ScanBlock); }
      var head := ReadHead(data, pos);
      if head.Err? { return Err(head.error); }
      var next;
      if IsDirMode(head.value.1) {
        next := SkipDirectoryContents(data, head.value.2);
      } else {
        next := ReadBlock(data, head.value.2);
      }
      if next.Err? { return Err(next.error); }
      pos := next.value;
    }
    return Err(GoodbyeMissing);
  }

  function ItemAt(data: bytes, pos: nat): GoodbyeItem
    requires pos + 24 <= |data|
  {
    GoodbyeItem(U64(data, pos), U64(data, pos + 8), U64(data, pos + 16))
  }

  function ItemsAt(data: bytes, pos: nat, n: nat): (items: seq<GoodbyeItem>)
    requires pos + 24 * n <= |data|
    ensures |items| == n
    decreases n
  {
    if n == 0 then [] else [ItemAt(data, pos)] + ItemsAt(data, pos + 24, n - 1)
  }

  function GoodbyeTable(data: bytes, pos: nat): Result<seq<GoodbyeItem>> {
    if pos + 16 > |data| then Err(GoodbyeHeader)
    else if U64(data, pos) != GOODBYE then Err(GoodbyeExpected)
    else
      var len := AsInt(U64(data, pos + 8));
      if len < 40 then Err(GoodbyeData)
      else if pos + len > MAX_INT then Err(Panics)
      else if pos + len > |data| then Err(GoodbyeData)
      else if (len - 16) % 24 != 0 then Err(GoodbyeItems)
      else Ok(ItemsAt(data, pos + 16, (len - 16) / 24))
  }

  lemma {:induction false} ItemsAtSnoc(data: bytes, pos: nat, n: nat)
    requires pos + 24 * (n + 1) <= |data|
    ensures ItemsAt(data, pos, n + 1) == ItemsAt(data, pos, n) + [ItemAt(data, pos + 24 * n)]
    decreases n
  {
    if n > 0 {
      ItemsAtSnoc(data, pos + 24, n - 1);
    }
  }

  method ParseGoodbyeBlock(data: bytes, pos: nat) returns (r: Result<seq<GoodbyeItem>>)
    ensures r == GoodbyeTable(data, pos)
  {
    if pos + 16 > |data| { return Err(GoodbyeHeader); }
    if U64(data, pos) != GOODBYE { return Err(GoodbyeExpected); }
    var len := AsInt(U64(data, pos + 8));
    if len < 40 { return Err(GoodbyeData); }
    if pos + len > MAX_INT { return Err(Panics); }
    if pos + len > |data| { return Err(GoodbyeData); }
    if (len - 16) % 24 != 0 { return Err(GoodbyeItems); }
    var n, i, items := (len - 16) / 24, 0, [];
    while i < n
      invariant 0 <= i <= n && items == ItemsAt(data, pos + 16, i)
    {
      ItemsAtSnoc(data, pos + 16, i);
      items := items + [ItemAt(data, pos + 16 + 24 * i)];
      i := i + 1;
    }
    return Ok(items);
  }

  /** Where the child called `name` starts, according to the directory's goodbye table. */
  function LookupChildStart(hashOf: bytes -> nat, data: bytes, contentPos: nat, name: bytes): (r: Result<nat>)
    ensures r.Ok? ==> r.value + 16 <= |data|
  {
    var bye :- Scan(data, contentPos);
    var items :- GoodbyeTable(data, bye);
    match Search(items, hashOf(name))
    case NotFound => Err(FileNotFound)
    case Found(idx) =>
      var start := bye - AsInt(items[idx].offset);
      if start < 0 || start + 16 > |data| then Err(OffsetOut)
      else if U64(data, start) != FILENAME then Err(InvalidPos)
      else Ok(start)
  }

  /** Only the first call stands at 0, before the root's entry. */
  function FindInPxar(hashOf: bytes -> nat, data: bytes, pos: nat, target: seq<bytes>): Result<bytes>
    decreases |target|
  {
    if target == [] then Err(PathEmpty)
    else
      var content :- if pos == 0 then ReadBlock(data, pos) else Ok(pos);
      var name, rest := target[0], target[1..];
      var child :- LookupChildStart(hashOf, data, content, name);
      var (childName, p1) :- ReadFilename(data, child);
      if !EqualFold(childName, name) then Err(NameMismatch)
      else
        var (mode, p2) :- ReadEntry(data, p1);
        if rest == [] then
          if IsDirMode(mode) then Err(IsDirectory) else ReadPayload(data, p2)
        else if !IsDirMode(mode) then Err(NotDirectory)
        else FindInPxar(hashOf, data, p2, rest)
  }

  /** `strings.Split` on the backslash. */
  function Split(path: bytes): (parts: seq<bytes>)
    ensures |parts| >= 1
    decreases |path|
  {
    if path == [] then [[]]
    else if path[0] == BACKSLASH then [[]] + Split(path[1..])
    else var parts := Split(path[1..]); [[path[0]] + parts[0]] + parts[1..]
  }

  function ExtractFile(hashOf: bytes -> nat, data: bytes, path: bytes): Result<bytes> {
    var parts := Split(NormalizeRestorePath(path));
    FindInPxar(hashOf, data, 0, if parts[|parts| - 1] == [] then parts[..|parts| - 1] else parts)
  }
}
