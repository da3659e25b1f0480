# dexie-file-cache: a Dafny model of the record cache

`FileCache` keeps a table of `CachedFile` rows in a Dexie (IndexedDB) store.
Each row is keyed by an opaque string `id`. `put` stores a file under an id,
gzipping its bytes unless the caller passes `compress = false`. It records
the uncompressed `size`, and it records `compressedSize` only when it
compressed. `get` looks the id up. If `compressedSize` is present it unzips the
stored blob, and it rebuilds the file together with the `{size, compressedSize}`
metadata. `delete` removes one id. `clear` removes every row.

The model has three files:

- `compress.dfy`, module `Compress`: bytes are `seq<bv8>`. The gzip adapter is
  a `Codec` value, a pair of total functions `zip` and `unzip`. The predicate
  `Lossless` is the round-trip law `unzip(zip(x)) == x`, which
  tests/compress.test.ts:8-19 exercises. The cache relies on nothing else about
  the codec.
- `file_cache.dfy`, module `FileCache`:
  - the records `File`, `FileMetadata`, `CachedFile` and `Retrieved`;
  - the specification functions: `Encode` (the row `put` writes), `Payload`
    (the bytes a row stands for), `View` (what `get` rebuilds from a row),
    `Lookup` (`get` on a table), and `Step` and `Run` (the table after one call
    and after a sequence of calls);
  - the row invariant `RowValid`: the row's id is its key, `size` is the length
    of the payload, and `compressedSize`, when present, is the length of the
    stored blob;
  - the class `FileCache`. It holds the codec as a constant and the Dexie table
    as a `map<string, CachedFile>` field `files`. Its methods `Put`, `Get`,
    `Delete` and `Clear` follow the source step by step. Each method is proved
    against `Step` or `Lookup` and keeps `Valid()` (a lossless codec and every
    row well formed).
- `cache_properties.dfy`, module `CacheProperties`: lemmas about the
  specification functions. They cover get-after-put fidelity, whole-row
  replacement, "other keys unchanged", miss, delete and clear semantics, and
  last-write-wins over any sequence of calls. It also has the two test cases of
  tests/FileCache.test.ts, replayed on a fresh cache.

Inputs from outside the program become parameters:

- The clock reading stored as `cachedAt` is an argument of `Put`.
- The codec is an argument of the constructor.
- The rows already in a persistent database are an argument of the
  constructor. They must be well formed, as rows written by `put` are.

`type` is a keyword in Dafny, so the file's MIME type field is named `mimeType`.

Three points where the model follows the code rather than a loose reading:

- Dexie's `update(id, cachedFile)` sets every field that `cachedFile` has. Setting
  `compressedSize` to `undefined` removes it, and reading it back gives
  `undefined`. So `update` replaces the whole row, exactly like `put`. Both
  branches of `Put` end with `files[id] == cachedFile`.
- `delete` removes the row by `cached.id`, the id stored inside the row, not
  by its argument. The two are the same only because every row's id equals its
  key. `RowValid` states this, and `Delete` relies on it.
- The code does not check that `id` is non-empty, so any string is accepted.

## Model

| member | source | states |
|---|---|---|
| `FileCache.Encode` | src/FileCache.ts:72-93 | the row `put` builds has `size` equal to the original length, `compressedSize` present exactly when compressing, the raw bytes as blob when not compressing, and, with a lossless codec, it is well formed and stands for exactly the file's bytes |
| `FileCache.View` | src/FileCache.ts:115-130 | the metadata `get` reports is exactly the stored `{size, compressedSize}` pair; for a well-formed row the reported size is the length of the returned bytes |
| `FileCache.FileCache.constructor` | src/FileCache.ts:59-65 | a cache opened over a store of well-formed rows is valid and holds exactly those rows |
| `FileCache.FileCache.Put` | src/FileCache.ts:72-103 | the new table is the old one with `id` mapped to the encoded row, whether `update` or `put` ran; a later get returns the file with `PutMetadata`; keys become old keys plus `id`; every other row is unchanged; the invariant is kept |
| `FileCache.FileCache.Get` | src/FileCache.ts:110-137 | returns nothing exactly when `id` is missing; otherwise the stored metadata, the unzipped blob when `compressedSize` is present and the blob unchanged when it is absent, with size equal to the returned length |
| `FileCache.FileCache.Delete` | src/FileCache.ts:142-151 | `id` is gone and get misses; every other row is unchanged; the invariant is kept |
| `FileCache.FileCache.Clear` | src/FileCache.ts:156-159 | the table is empty and every get misses |
| `CacheProperties.GetAfterPut` | src/FileCache.ts:84-125 | with a lossless codec, get after put returns the same name, type, lastModified and bytes, size equal to the original length, and compressedSize present exactly when compression was asked for, equal to the zipped length |
| `CacheProperties.PutLeavesOthers` | src/FileCache.ts:95-102 | put on one id changes what get returns for no other id |
| `CacheProperties.PutOverwrites` | src/FileCache.ts:95-102 | two puts on one id leave the same table as the second alone: a full replacement, not a merge |
| `CacheProperties.DeleteSemantics` | src/FileCache.ts:142-151 | after delete, get misses; other ids are unchanged; delete of a missing id is a no-op |
| `CacheProperties.ClearSemantics` | src/FileCache.ts:156-159 | after clear, get misses for every id |
| `CacheProperties.StepKeepsValid` | src/FileCache.ts:9-38 | put, delete and clear each keep every row well formed (id equals key, size is the payload length, compressedSize is the stored length) |
| `CacheProperties.RunKeepsValid` | src/FileCache.ts:9-38 | any sequence of calls keeps every row well formed |
| `CacheProperties.RunUntouched` | src/FileCache.ts:95-159 | calls that neither name an id nor clear the table leave its row and its get result unchanged |
| `CacheProperties.AbsentStaysAbsent` | src/FileCache.ts:110-136 | a missing id keeps missing through any calls that do not put it |
| `CacheProperties.LastPutWins` | src/FileCache.ts:95-102 | whatever came before, get returns exactly the file and metadata of the last put on that id when no later call names it or clears |
| `CacheProperties.DeletedStaysAbsent` | src/FileCache.ts:142-151 | after delete, get misses until the id is put again |
| `CacheProperties.ClearedStaysAbsent` | src/FileCache.ts:156-159 | after clear, get misses for every id not put since |
| `CacheProperties.HelloWorld` | tests/FileCache.test.ts:28-62 | "Hello, World!" put compressed or uncompressed comes back byte for byte with size 13, compressedSize present only when compressed, and get after delete misses |

## Left out

- src/util/compress.ts: the codec's internals (fflate's gzip at level 3 and
  gunzip) are not modelled. A codec is any pair of
  total functions satisfying the round-trip law.
- The codec's failure path is not modelled: the `throw` inside the fflate
  callbacks (src/util/compress.ts:20-22, 37-39) and a corrupt blob failing to
  unzip in `get`. The throw happens inside a callback, so it never rejects the
  returned promise. With a lossless codec and well-formed rows there is no
  failure to model.
- The claim that compressed data is smaller than the input
  (tests/compress.test.ts:21-25) depends on the codec and is not stated.
- src/util/size.ts (`formatFileSize`) is not part of this model. It uses
  floating point and only feeds log messages.
- The Dexie database class and schema (src/FileCache.ts:40-49) and the
  database name option. The `cachedAt` index is never queried.
- Async sequencing. Every operation is one atomic step and calls run one after
  another. Concurrent callers, the non-atomic read-then-write inside `put`, and
  storage (quota or I/O) failures are not modelled.
- Logging, `performance.now()` (src/FileCache.ts:143) and the "cache miss" log
  that `delete` always writes (src/FileCache.ts:150) are not modelled. None of
  them is observable in the table or in the results.
- The clock. `cachedAt` is a parameter, and a timestamp is an `int`.
  `lastModified` is an `int` too, not a floating-point number.
- The browser's `File` and `Blob` normalisation of the MIME type (lower-casing).
  Types come from existing `File` objects, so they are already normalised, and
  the model passes them through as they are.
- The default `compress = true`. `Put` takes the flag explicitly, and a caller
  that omits it passes `true`.
