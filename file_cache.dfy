/** The record cache of src/FileCache.ts: a table of `CachedFile` rows keyed by
    id, written by `put` (compressing the payload unless told not to), read back
    by `get` (decompressing what was compressed), and emptied by `delete` and
    `clear`. */
module FileCache {
  import opened Compress

  datatype Option<T> = None | Some(value: T)

  /** A browser `File`: its name, MIME type, last-modified timestamp and bytes.
      Its `size` is the length of its bytes. */
  datatype File = File(name: string, mimeType: string, lastModified: int, bytes: Bytes)

  /** `FileMetadata`: the size of the uncompressed blob, and the size of the
      compressed blob when it is compressed. */
  datatype FileMetadata = FileMetadata(size: nat, compressedSize: Option<nat>)

  /** `CachedFile`: one row of the `files` table. `blob` is what is stored,
      the zipped bytes when `compressedSize` is present. */
  datatype CachedFile = CachedFile(
    id: string,
    blob: Bytes,
    name: string,
    mimeType: string,
    lastModified: int,
    cachedAt: int,
    size: nat,
    compressedSize: Option<nat>)

  /** What `get` hands back for a row it finds. */
  datatype Retrieved = Retrieved(file: File, metadata: FileMetadata)

  /** The `files` table: rows by primary key `id`. */
  type Table = map<string, CachedFile>

  /** The bytes a row stands for: its blob, unzipped when the row is flagged
      compressed by the presence of `compressedSize`. */
  function Payload(c: Codec, rec: CachedFile): Bytes
  {
    if rec.compressedSize.Some? then c.unzip(rec.blob) else rec.blob
  }

  /** A row stored under `key` is well formed: its own id is the key, `size`
      is the length of the bytes it stands for, and `compressedSize`, when
      present, is the length of the stored blob. */
  ghost predicate RowValid(c: Codec, key: string, rec: CachedFile)
  {
    && rec.id == key
    && rec.size == |Payload(c, rec)|
    && (rec.compressedSize.Some? ==> rec.compressedSize.value == |rec.blob|)
  }

  ghost predicate TableValid(c: Codec, t: Table)
  {
    forall key | key in t :: RowValid(c, key, t[key])
  }

  /** The metadata `get` reports for `f` after `put(id, f, compress)`. */
  function PutMetadata(c: Codec, f: File, compress: bool): FileMetadata
  {
    FileMetadata(|f.bytes|, if compress then Some(|c.zip(f.bytes)|) else None)
  }

  /** The row `put(id, f, compress)` writes, `cachedAt` being the clock's
      reading at the call. With a lossless codec the row is well formed and
      stands for exactly the bytes of `f`; `compressedSize` is present exactly
      when the call asked for compression, and `size` is the uncompressed
      length either way. */
  function Encode(c: Codec, id: string, f: File, compress: bool, cachedAt: int): (r: CachedFile)
    ensures r.size == |f.bytes|
    ensures r.compressedSize.Some? <==> compress
    ensures !compress ==> r.blob == f.bytes
    ensures Lossless(c) ==> RowValid(c, id, r) && Payload(c, r) == f.bytes
  {
    var blob := if compress then c.zip(f.bytes) else f.bytes;
    CachedFile(id, blob, f.name, f.mimeType, f.lastModified, cachedAt, |f.bytes|,
               if compress then Some(|blob|) else None)
  }

  /** The file and metadata `get` rebuilds from a row. The metadata is exactly
      the stored `{size, compressedSize}` pair, no storage detail, and for a
      well-formed row the reported size is the length of the returned bytes. */
  function View(c: Codec, rec: CachedFile): (r: Retrieved)
    ensures r.metadata == FileMetadata(rec.size, rec.compressedSize)
    ensures RowValid(c, rec.id, rec) ==> |r.file.bytes| == r.metadata.size
  {
    Retrieved(File(rec.name, rec.mimeType, rec.lastModified, Payload(c, rec)),
              FileMetadata(rec.size, rec.compressedSize))
  }

  /** What `get(id)` returns on table `t`: nothing for a missing id. */
  function Lookup(c: Codec, t: Table, id: string): Option<Retrieved>
  {
    if id in t then Some(View(c, t[id])) else None
  }

  /** The calls that change the table, each with its arguments. */
  datatype Call =
    | PutCall(id: string, file: File, compress: bool, cachedAt: int)
    | DeleteCall(id: string)
    | ClearCall

  /** The table after one call: `put` replaces the row for its id whole,
      `delete` removes one id, `clear` removes every row. */
  function Step(c: Codec, t: Table, call: Call): Table
  {
    match call
    case PutCall(id, f, compress, cachedAt) => t[id := Encode(c, id, f, compress, cachedAt)]
    case DeleteCall(id) => t - {id}
    case ClearCall => map[]
  }

  /** The table after a sequence of calls, one after another. */
  function Run(c: Codec, t: Table, calls: seq<Call>): Table
    decreases |calls|
  {
    if calls == [] then t else Run(c, Step(c, t, calls[0]), calls[1..])
  }

  /** Whether a call may change the row stored under `id`. */
  predicate Touches(call: Call, id: string)
  {
    call.ClearCall? || call.id == id
  }

  /** Whether a call writes a row under `id`. */
  predicate Writes(call: Call, id: string)
  {
    call.PutCall? && call.id == id
  }

  class FileCache {
    const codec: Codec
    var files: Table

    ghost predicate Valid()
      reads this
    {
      Lossless(codec) && TableValid(codec, files)
    }

    /** Opens the cache over a store that may already hold rows written by
        earlier instances. */
    constructor (codec: Codec, stored: Table)
      requires Lossless(codec) && TableValid(codec, stored)
      ensures Valid()
      ensures this.codec == codec && files == stored
    {
      this.codec := codec;
      files := stored;
    }

    /** `put(id, file, compress)`; a caller that omits the flag passes true. */
    method Put(id: string, file: File, compress: bool, cachedAt: int)
      requires Valid()
      modifies this
      ensures Valid()
      ensures files == Step(codec, old(files), PutCall(id, file, compress, cachedAt))
      ensures id in files && Lookup(codec, files, id) == Some(Retrieved(file, PutMetadata(codec, file, compress)))
      ensures files.Keys == old(files).Keys + {id}
      ensures forall k | k in old(files) && k != id :: files[k] == old(files)[k]
    {
      var size := |file.bytes|;
      var compressedSize: Option<nat> := None;
      var blob := file.bytes;
      if compress {
        blob := codec.zip(blob);
        compressedSize := Some(|blob|);
      }
      var cachedFile := CachedFile(id, blob, file.name, file.mimeType, file.lastModified,
                                   cachedAt, size, compressedSize);
      if id in files {
        // `update(id, cachedFile)` sets every field of the existing row
        files := files[id := cachedFile];
      } else {
        // `put(cachedFile)` keys the new row by its own `id`
        files := files[cachedFile.id := cachedFile];
      }
    }

    /** `get(id)`: the stored file and its metadata, or nothing on a miss. */
    method Get(id: string) returns (r: Option<Retrieved>)
      requires Valid()
      ensures r == Lookup(codec, files, id)
      ensures r.None? <==> id !in files
      ensures r.Some? ==> r.value.metadata == FileMetadata(files[id].size, files[id].compressedSize)
      ensures r.Some? && files[id].compressedSize.Some? ==> r.value.file.bytes == codec.unzip(files[id].blob)
      ensures r.Some? && files[id].compressedSize.None? ==> r.value.file.bytes == files[id].blob
      ensures r.Some? ==> |r.value.file.bytes| == r.value.metadata.size
    {
      if id in files {
        var cached := files[id];
        var blob := cached.blob;
        if cached.compressedSize.Some? {
          blob := codec.unzip(blob);
        }
        var file := File(cached.name, cached.mimeType, cached.lastModified, blob);
        var metadata := FileMetadata(cached.size, cached.compressedSize);
        return Some(Retrieved(file, metadata));
      }
      return None;
    }

    /** `delete(id)`: removes the row if there is one, a no-op otherwise. */
    method Delete(id: string)
      requires Valid()
      modifies this
      ensures Valid()
      ensures files == Step(codec, old(files), DeleteCall(id))
      ensures id !in files && Lookup(codec, files, id) == None
      ensures forall k | k in old(files) && k != id :: k in files && files[k] == old(files)[k]
    {
      if id in files {
        var cached := files[id];
        // the row is removed by its own id, which Valid() ties to the key
        files := files - {cached.id};
      }
    }

    /** `clear()`: removes every row. */
    method Clear()
      requires Valid()
      modifies this
      ensures Valid()
      ensures files == Step(codec, old(files), ClearCall)
      ensures forall k :: Lookup(codec, files, k) == None
    {
      files := map[];
    }
  }
}
