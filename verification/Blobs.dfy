/** Large values of a detail: fetched chunk by chunk, checked against their digest, and written
    into slots of the detail tree that already exist. */
module Blobs {
  import opened Wrappers
  import opened Text
  import opened Documents
  import opened FieldPointers

  const QUERY_BLOB_FIELD_BUDGET := 16 * 1024 * 1024
  const QUERY_MAX_CHUNK_BYTES := 65536

  datatype BlobRef = BlobRef(pointer: string, blobID: string, totalBytes: nat, sha256: string)

  // data stands for the decoded bytes of data_base64.
  datatype Chunk = Chunk(blobID: string, offset: int, totalBytes: int, sha256: string, data: string, complete: bool)

  datatype ChunkReply = NoChunk(error: Error) | Got(chunk: Chunk)

  type ChunkServer = nat -> ChunkReply

  // The decoder's checks on a chunk.
  predicate ValidChunk(chunk: Chunk) {
    && chunk.blobID != "" && chunk.offset >= 0
    && 0 <= chunk.totalBytes <= QUERY_BLOB_FIELD_BUDGET
    && |chunk.data| <= QUERY_MAX_CHUNK_BYTES && chunk.offset + |chunk.data| <= chunk.totalBytes
    && chunk.complete == (chunk.offset + |chunk.data| == chunk.totalBytes)
  }

  // One turn of the chunk loop: the bytes it appends.
  function TakeChunk(ref: BlobRef, have: nat, reply: ChunkReply): Result<string, Error> {
    match reply
    case NoChunk(error) => Err(error)
    case Got(chunk) =>
      if !ValidChunk(chunk) then Err(ProtocolError)
      else if chunk.blobID != ref.blobID || chunk.offset != have || chunk.totalBytes != ref.totalBytes
              || chunk.sha256 != ref.sha256 then Err(ProtocolError)
      else if chunk.data == "" || have + |chunk.data| > ref.totalBytes then Err(ProtocolError)
      else if chunk.complete != (have + |chunk.data| == ref.totalBytes) then Err(ProtocolError)
      else Ok(chunk.data)
  }

  // The chunk loop, from these bytes on.
  function Fetch(ref: BlobRef, data: string, server: ChunkServer, n: nat): (Result<string, Error>, nat)
    decreases ref.totalBytes - |data|
  {
    if |data| >= ref.totalBytes then (Ok(data), n)
    else
      match TakeChunk(ref, |data|, server(n))
      case Err(error) => (Err(error), n + 1)
      case Ok(more) => Fetch(ref, data + more, server, n + 1)
  }

  // readQueryBlob, with SHA-256 and the JSON parser left to their libraries.
  method ReadQueryBlob<V>(
      ref: BlobRef, server: ChunkServer, n: nat, digest: string -> string, parse: string -> Option<V>)
    returns (result: Result<V, Error>, next: nat)
    ensures var (fetched, after) := Fetch(ref, "", server, n);
            if ref.totalBytes > QUERY_BLOB_FIELD_BUDGET then result == Err(ProtocolError) && next == n
            else
              && next == after
              && match fetched
                 case Err(error) => result == Err(error)
                 case Ok(data) =>
                   result == if digest(data) == ref.sha256 && parse(data).Some? then Ok(parse(data).value)
                             else Err(ProtocolError)
    // a blob of no bytes is never read: nothing is asked for, and nothing is not a document
    ensures ref.totalBytes == 0 && parse("").None? ==> result.Err? && next == n
  {
    if ref.totalBytes > QUERY_BLOB_FIELD_BUDGET { return Err(ProtocolError), n; }
    var data: string := "";
    next := n;
    while |data| < ref.totalBytes
      invariant Fetch(ref, "", server, n) == Fetch(ref, data, server, next)
      decreases ref.totalBytes - |data|
    {
      var more := TakeChunk(ref, |data|, server(next));
      next := next + 1;
      if more.Err? { return Err(more.error), next; }
      data := data + more.value;
    }
    if digest(data) != ref.sha256 { return Err(ProtocolError), next; }
    var value := parse(data);
    if value.None? { return Err(ProtocolError), next; }
    return Ok(value.value), next;
  }

  function Joined(pieces: seq<string>): string {
    if pieces == [] then "" else pieces[0] + Joined(pieces[1..])
  }

  // The chunk that carries a piece of a blob.
  function ChunkOf(ref: BlobRef, offset: nat, piece: string): Chunk {
    Chunk(ref.blobID, offset, ref.totalBytes, ref.sha256, piece, offset + |piece| == ref.totalBytes)
  }

  // The server answers with these pieces, in order, each as the chunk of the blob that is due.
  ghost predicate SendsPieces(ref: BlobRef, have: nat, server: ChunkServer, n: nat, pieces: seq<string>)
    decreases |pieces|
  {
    pieces == [] ||
    (&& server(n) == Got(ChunkOf(ref, have, pieces[0]))
     && SendsPieces(ref, have + |pieces[0]|, server, n + 1, pieces[1..]))
  }

  /** A fetch that succeeds returns the pieces the server sent, in order, exactly as many bytes as
      were announced; each came as the chunk that was due, of this blob, offset, total and digest,
      non-empty and of permitted size; and it asked for one chunk per piece: at most one per byte. */
  lemma {:induction false} FetchedIsJoined(ref: BlobRef, data: string, server: ChunkServer, n: nat)
    returns (pieces: seq<string>)
    requires |data| <= ref.totalBytes && Fetch(ref, data, server, n).0.Ok?
    ensures Fetch(ref, data, server, n) == (Ok(data + Joined(pieces)), n + |pieces|)
    ensures |data + Joined(pieces)| == ref.totalBytes && |pieces| <= ref.totalBytes - |data|
    ensures SendsPieces(ref, |data|, server, n, pieces)
    ensures forall i | 0 <= i < |pieces| :: 0 < |pieces[i]| <= QUERY_MAX_CHUNK_BYTES
    decreases ref.totalBytes - |data|
  {
    if |data| >= ref.totalBytes {
      pieces := [];
      assert data + "" == data;
    } else {
      var more := TakeChunk(ref, |data|, server(n)).value;
      var rest := FetchedIsJoined(ref, data + more, server, n + 1);
      pieces := [more] + rest;
      assert pieces[1..] == rest;
      assert server(n) == Got(ChunkOf(ref, |data|, more));
      assert data + more + Joined(rest) == data + (more + Joined(rest));
    }
  }

  /** Whatever the server answers, the chunk loop asks at most once per announced byte. */
  lemma {:induction false} ChunkRequestsAreBounded(ref: BlobRef, data: string, server: ChunkServer, n: nat)
    requires |data| <= ref.totalBytes
    ensures n <= Fetch(ref, data, server, n).1 <= n + (ref.totalBytes - |data|)
    decreases ref.totalBytes - |data|
  {
    if |data| < ref.totalBytes {
      var more := TakeChunk(ref, |data|, server(n));
      if more.Ok? { ChunkRequestsAreBounded(ref, data + more.value, server, n + 1); }
    }
  }

  /** However a payload is cut into non-empty chunks, it is fetched back unchanged. */
  lemma {:induction false} AnyCutIsFetched(
      ref: BlobRef, payload: string, data: string, server: ChunkServer, n: nat, pieces: seq<string>)
    requires ref.blobID != "" && |payload| == ref.totalBytes <= QUERY_BLOB_FIELD_BUDGET
    requires payload == data + Joined(pieces)
    requires forall i | 0 <= i < |pieces| :: 0 < |pieces[i]| <= QUERY_MAX_CHUNK_BYTES
    requires SendsPieces(ref, |data|, server, n, pieces)
    ensures Fetch(ref, data, server, n) == (Ok(payload), n + |pieces|)
    decreases |pieces|
  {
    if pieces == [] {
      assert data + "" == data;
    } else {
      var piece := pieces[0];
      assert payload == (data + piece) + Joined(pieces[1..]);
      assert TakeChunk(ref, |data|, server(n)) == Ok(piece);
      AnyCutIsFetched(ref, payload, data + piece, server, n + 1, pieces[1..]);
    }
  }

  // --- the slots of the detail tree

  datatype Json = Null | Bool(b: bool) | Number(text: string) | Str(s: string)
                | Arr(items: seq<Json>) | Obj(fields: map<string, Json>)

  // A step into an object or an array.
  datatype Slot = Key(key: string) | Index(index: nat)

  // queryPointerIndex
  function PointerIndex(key: string, size: nat): Option<nat> {
    if key == "" || exists i | 0 <= i < |key| :: !('0' <= key[i] <= '9') then None
    else
      var index := Decimal(key);
      if index >= size then None else Some(index)
  }

  // One part of a pointer, at a place in the tree.
  function Enter(at: Json, key: string): Option<Slot> {
    match at
    case Obj(fields) => if key in fields then Some(Key(key)) else None
    case Arr(items) =>
      var index := PointerIndex(key, |items|);
      if index.None? then None else Some(Index(index.value))
    case _ => None
  }

  function Child(at: Json, slot: Slot): Option<Json> {
    match (at, slot)
    case (Obj(fields), Key(key)) => if key in fields then Some(fields[key]) else None
    case (Arr(items), Index(i)) => if i < |items| then Some(items[i]) else None
    case _ => None
  }

  function At(root: Json, path: seq<Slot>): Option<Json>
    decreases |path|
  {
    if path == [] then Some(root)
    else
      var child := Child(root, path[0]);
      if child.None? then None else At(child.value, path[1..])
  }

  // The slots a sequence of keys leads through.
  function Resolve(root: Json, keys: seq<string>): Option<seq<Slot>>
    decreases |keys|
  {
    if keys == [] then Some([])
    else
      var slot := Enter(root, keys[0]);
      if slot.None? || Child(root, slot.value).None? then None
      else
        var rest := Resolve(Child(root, slot.value).value, keys[1..]);
        if rest.None? then None else Some([slot.value] + rest.value)
  }

  // The parts of a pointer below the groups, unescaped.
  function KeysOf(parts: seq<string>): seq<string> {
    seq(|parts|, i requires 0 <= i < |parts| => Unescape(parts[i]))
  }

  // queryPointerParent on the groups of a detail, down to the last key.
  function PointerSlot(groups: Json, pointer: string): Option<seq<Slot>> {
    var parts := Split(pointer);
    if |parts| < 4 || parts[0] != "" || parts[1] != "groups" then None
    else Resolve(groups, KeysOf(parts[2..]))
  }

  // Writing one value into the slot at the end of the path.
  function Put(root: Json, path: seq<Slot>, value: Json): Json
    requires At(root, path).Some?
    decreases |path|
  {
    if path == [] then value
    else
      var child := Put(Child(root, path[0]).value, path[1..], value);
      match path[0]
      case Key(key) => Obj(root.fields[key := child])
      case Index(i) => Arr(root.items[i := child])
  }

  /** A pointer is accepted only if every slot on its way exists already, the last one included. */
  lemma {:induction false} ResolvedSlotExists(root: Json, keys: seq<string>)
    requires Resolve(root, keys).Some?
    ensures |Resolve(root, keys).value| == |keys| && At(root, Resolve(root, keys).value).Some?
    decreases |keys|
  {
    if keys != [] {
      var slot := Enter(root, keys[0]).value;
      var child := Child(root, slot).value;
      ResolvedSlotExists(child, keys[1..]);
      var path := Resolve(root, keys).value;
      assert path[1..] == Resolve(child, keys[1..]).value;
    }
  }

  /** Writing a resolved value changes exactly that slot: it then holds the value, and every slot
      that is not above or below it holds what it held, in a tree with the same slots. */
  lemma {:induction false} PutChangesOneSlot(root: Json, path: seq<Slot>, value: Json, other: seq<Slot>)
    requires At(root, path).Some?
    ensures At(Put(root, path, value), path) == Some(value)
    ensures !(path <= other) && !(other <= path) ==> At(Put(root, path, value), other) == At(root, other)
    ensures other <= path && other != path ==> At(Put(root, path, value), other).Some?
    decreases |path|
  {
    if path != [] {
      var child := Child(root, path[0]).value;
      var next := Put(root, path, value);
      assert Child(next, path[0]) == Some(Put(child, path[1..], value));
      if other != [] && other[0] == path[0] {
        assert path == [path[0]] + path[1..] && other == [path[0]] + other[1..];
        PutChangesOneSlot(child, path[1..], value, other[1..]);
      } else {
        PutChangesOneSlot(child, path[1..], value, []);
        assert other != [] ==> Child(next, other[0]) == Child(root, other[0]);
      }
    }
  }

  // --- substituting all blobs of a detail

  // From the i-th reference on; fetched(i) is what reading the i-th blob gave.
  function Substitute(
      groups: Json, refs: seq<BlobRef>, seen: set<string>, fetched: nat -> Result<Json, Error>, i: nat)
    : Result<Json, Error>
    requires i <= |refs|
    decreases |refs| - i
  {
    if i == |refs| then Ok(groups)
    else if refs[i].pointer in seen || PointerSlot(groups, refs[i].pointer).None? then Err(ProtocolError)
    else if fetched(i).Err? then Err(fetched(i).error)
    else
      PointerSlotExists(groups, refs[i].pointer);
      Substitute(Put(groups, PointerSlot(groups, refs[i].pointer).value, fetched(i).value),
                 refs, seen + {refs[i].pointer}, fetched, i + 1)
  }

  // The blob loop of readQueryDetail.
  method SubstituteBlobs(groups: Json, refs: seq<BlobRef>, fetched: nat -> Result<Json, Error>)
    returns (result: Result<Json, Error>)
    ensures result == Substitute(groups, refs, {}, fetched, 0)
  {
    var tree, seen := groups, {};
    for i := 0 to |refs|
      invariant Substitute(groups, refs, {}, fetched, 0) == Substitute(tree, refs, seen, fetched, i)
    {
      if refs[i].pointer in seen { return Err(ProtocolError); }
      seen := seen + {refs[i].pointer};
      var slot := PointerSlot(tree, refs[i].pointer);
      if slot.None? { return Err(ProtocolError); }
      var value := fetched(i);
      if value.Err? { return Err(value.error); }
      PointerSlotExists(tree, refs[i].pointer);
      tree := Put(tree, slot.value, value.value);
    }
    return Ok(tree);
  }

  /** Every accepted pointer names a slot that the tree already has, at least two levels down. */
  lemma PointerSlotExists(groups: Json, pointer: string)
    requires PointerSlot(groups, pointer).Some?
    ensures At(groups, PointerSlot(groups, pointer).value).Some?
    ensures |PointerSlot(groups, pointer).value| >= 2
  {
    ResolvedSlotExists(groups, KeysOf(Split(pointer)[2..]));
  }

  /** From the i-th reference on no pointer repeats. */
  ghost predicate NoRepeats(refs: seq<BlobRef>, seen: set<string>, i: nat) {
    && (forall k | i <= k < |refs| :: refs[k].pointer !in seen)
    && (forall j, k | i <= j < k < |refs| :: refs[j].pointer != refs[k].pointer)
  }

  /** The k-th pointer names a slot of the tree as it is when its turn comes, and its blob was read. */
  ghost predicate NamedInTurn(
      groups: Json, refs: seq<BlobRef>, fetched: nat -> Result<Json, Error>, i: nat, k: nat)
    requires i <= k < |refs|
  {
    var tree := TreeBefore(groups, refs, fetched, i, k);
    tree.Some? && PointerSlot(tree.value, refs[k].pointer).Some? && fetched(k).Ok?
  }

  ghost predicate AllNamedInTurn(groups: Json, refs: seq<BlobRef>, fetched: nat -> Result<Json, Error>, i: nat)
    requires i <= |refs|
  {
    forall k: nat | i <= k < |refs| :: NamedInTurn(groups, refs, fetched, i, k)
  }

  lemma NoRepeatsCons(refs: seq<BlobRef>, seen: set<string>, i: nat)
    requires i < |refs|
    ensures NoRepeats(refs, seen, i) <==>
            refs[i].pointer !in seen && NoRepeats(refs, seen + {refs[i].pointer}, i + 1)
  {
  }

  /** Resolving the blobs succeeds exactly when no pointer repeats and, one after the other, each
      names a slot of the tree as it then is and its blob was read. */
  lemma {:induction false} SubstitutesExactly(
      groups: Json, refs: seq<BlobRef>, seen: set<string>, fetched: nat -> Result<Json, Error>, i: nat)
    requires i <= |refs|
    ensures Substitute(groups, refs, seen, fetched, i).Ok? <==>
            NoRepeats(refs, seen, i) && AllNamedInTurn(groups, refs, fetched, i)
    ensures Substitute(groups, refs, seen, fetched, i).Ok? ==>
            Some(Substitute(groups, refs, seen, fetched, i).value) == TreeBefore(groups, refs, fetched, i, |refs|)
    decreases |refs| - i
  {
    hide PointerSlot, NoRepeats, Put;
    if i == |refs| {
      assert NoRepeats(refs, seen, i) by { NothingRepeats(refs, seen); }
    } else {
      NoRepeatsCons(refs, seen, i);
      if !NamedInTurn(groups, refs, fetched, i, i) {
        assert PointerSlot(groups, refs[i].pointer).None? || fetched(i).Err?;
      } else {
        PointerSlotExists(groups, refs[i].pointer);
        var next := Put(groups, PointerSlot(groups, refs[i].pointer).value, fetched(i).value);
        SubstitutesExactly(next, refs, seen + {refs[i].pointer}, fetched, i + 1);
        NamedLater(groups, next, refs, fetched, i);
      }
    }
  }

  lemma NothingRepeats(refs: seq<BlobRef>, seen: set<string>)
    ensures NoRepeats(refs, seen, |refs|)
  {
  }

  lemma NamedLater(groups: Json, next: Json, refs: seq<BlobRef>, fetched: nat -> Result<Json, Error>, i: nat)
    requires i < |refs| && NamedInTurn(groups, refs, fetched, i, i)
    requires At(groups, PointerSlot(groups, refs[i].pointer).value).Some?
    requires next == Put(groups, PointerSlot(groups, refs[i].pointer).value, fetched(i).value)
    ensures AllNamedInTurn(groups, refs, fetched, i) <==> AllNamedInTurn(next, refs, fetched, i + 1)
  {
    hide PointerSlot, Put;
    var j := i + 1;
    if AllNamedInTurn(groups, refs, fetched, i) {
      forall k: nat | j <= k < |refs| ensures NamedInTurn(next, refs, fetched, j, k) {
        assert NamedInTurn(groups, refs, fetched, i, k);
      }
    }
    if AllNamedInTurn(next, refs, fetched, j) {
      forall k: nat | i <= k < |refs| ensures NamedInTurn(groups, refs, fetched, i, k) {
        assert k > i ==> NamedInTurn(next, refs, fetched, j, k);
      }
    }
  }

  // None of the writes from the i-th on is above or below this slot.
  ghost predicate ClearOf(
      groups: Json, refs: seq<BlobRef>, fetched: nat -> Result<Json, Error>, i: nat, other: seq<Slot>)
    requires i <= |refs|
    decreases |refs| - i
  {
    i == |refs| || PointerSlot(groups, refs[i].pointer).None? || fetched(i).Err? ||
    (PointerSlotExists(groups, refs[i].pointer);
     var path := PointerSlot(groups, refs[i].pointer).value;
     && !(path <= other) && !(other <= path)
     && ClearOf(Put(groups, path, fetched(i).value), refs, fetched, i + 1, other))
  }

  /** Resolving the blobs of a detail leaves every other slot as the server sent it. */
  lemma {:induction false} SubstitutionIsLocal(
      groups: Json, refs: seq<BlobRef>, seen: set<string>, fetched: nat -> Result<Json, Error>, i: nat,
      other: seq<Slot>)
    requires i <= |refs| && Substitute(groups, refs, seen, fetched, i).Ok?
    requires ClearOf(groups, refs, fetched, i, other)
    ensures At(Substitute(groups, refs, seen, fetched, i).value, other) == At(groups, other)
    decreases |refs| - i
  {
    if i < |refs| {
      PointerSlotExists(groups, refs[i].pointer);
      var path := PointerSlot(groups, refs[i].pointer).value;
      PutChangesOneSlot(groups, path, fetched(i).value, other);
      SubstitutionIsLocal(Put(groups, path, fetched(i).value), refs, seen + {refs[i].pointer}, fetched, i + 1, other);
    }
  }

  // The tree just before the k-th write, if the writes from the i-th on get that far.
  ghost function TreeBefore(
      groups: Json, refs: seq<BlobRef>, fetched: nat -> Result<Json, Error>, i: nat, k: nat): Option<Json>
    requires i <= k <= |refs|
    decreases k - i
  {
    if i == k then Some(groups)
    else if PointerSlot(groups, refs[i].pointer).None? || fetched(i).Err? then None
    else
      PointerSlotExists(groups, refs[i].pointer);
      TreeBefore(Put(groups, PointerSlot(groups, refs[i].pointer).value, fetched(i).value), refs, fetched, i + 1, k)
  }

  /** After all writes, the slot of each reference holds the value fetched for it, unless a later
      write went to that slot, above it or below it. */
  lemma {:induction false} SubstitutedSlotHolds(
      groups: Json, refs: seq<BlobRef>, seen: set<string>, fetched: nat -> Result<Json, Error>, i: nat, k: nat)
    requires i <= k < |refs| && Substitute(groups, refs, seen, fetched, i).Ok?
    ensures fetched(k).Ok?
    ensures var tree := TreeBefore(groups, refs, fetched, i, k);
            && tree.Some? && PointerSlot(tree.value, refs[k].pointer).Some?
            && (PointerSlotExists(tree.value, refs[k].pointer);
                var path := PointerSlot(tree.value, refs[k].pointer).value;
                ClearOf(Put(tree.value, path, fetched(k).value), refs, fetched, k + 1, path) ==>
                  At(Substitute(groups, refs, seen, fetched, i).value, path) == Some(fetched(k).value))
    decreases k - i
  {
    PointerSlotExists(groups, refs[i].pointer);
    var path := PointerSlot(groups, refs[i].pointer).value;
    var next := Put(groups, path, fetched(i).value);
    if i < k {
      SubstitutedSlotHolds(next, refs, seen + {refs[i].pointer}, fetched, i + 1, k);
    } else if ClearOf(next, refs, fetched, i + 1, path) {
      PutChangesOneSlot(groups, path, fetched(i).value, path);
      SubstitutionIsLocal(next, refs, seen + {refs[i].pointer}, fetched, i + 1, path);
    }
  }
}
