/** What the cache promises across calls: get-after-put fidelity, whole-row
    replacement, miss, delete and clear semantics, and what a sequence of calls
    leaves behind. */
module CacheProperties {
  import opened Compress
  import opened FileCache

  /** After `put(id, f, compress)`, `get(id)` returns `f` itself (name, type,
      last-modified time and bytes) with `size` the uncompressed length and
      `compressedSize` present exactly when compression was asked for. */
  lemma GetAfterPut(c: Codec, t: Table, id: string, f: File, compress: bool, cachedAt: int)
    requires Lossless(c)
    ensures Lookup(c, Step(c, t, PutCall(id, f, compress, cachedAt)), id)
            == Some(Retrieved(f, PutMetadata(c, f, compress)))
  {
  }

  /** `put(id, ...)` leaves what `get` returns for every other id unchanged. */
  lemma PutLeavesOthers(c: Codec, t: Table, id: string, f: File, compress: bool, cachedAt: int, k: string)
    requires k != id
    ensures Lookup(c, Step(c, t, PutCall(id, f, compress, cachedAt)), k) == Lookup(c, t, k)
  {
  }

  /** A second `put` on the same id replaces the first whole: nothing of the
      earlier row survives, whatever compression either call chose. */
  lemma PutOverwrites(c: Codec, t: Table, id: string, a: File, compressA: bool, atA: int,
                      b: File, compressB: bool, atB: int)
    ensures Step(c, Step(c, t, PutCall(id, a, compressA, atA)), PutCall(id, b, compressB, atB))
            == Step(c, t, PutCall(id, b, compressB, atB))
  {
  }

  /** After `delete(id)`, `get(id)` misses, and every other id is unchanged;
      deleting a missing id changes nothing. */
  lemma DeleteSemantics(c: Codec, t: Table, id: string, k: string)
    ensures Lookup(c, Step(c, t, DeleteCall(id)), id) == None
    ensures k != id ==> Lookup(c, Step(c, t, DeleteCall(id)), k) == Lookup(c, t, k)
    ensures id !in t ==> Step(c, t, DeleteCall(id)) == t
  {
  }

  /** After `clear()`, every `get` misses. */
  lemma ClearSemantics(c: Codec, t: Table, k: string)
    ensures Lookup(c, Step(c, t, ClearCall), k) == None
  {
  }

  /** Every call keeps every row well formed, given a lossless codec. */
  lemma StepKeepsValid(c: Codec, t: Table, call: Call)
    requires Lossless(c) && TableValid(c, t)
    ensures TableValid(c, Step(c, t, call))
  {
  }

  /** Any sequence of calls keeps every row well formed. */
  lemma {:induction false} RunKeepsValid(c: Codec, t: Table, calls: seq<Call>)
    requires Lossless(c) && TableValid(c, t)
    ensures TableValid(c, Run(c, t, calls))
    decreases |calls|
  {
    if calls != [] {
      StepKeepsValid(c, t, calls[0]);
      RunKeepsValid(c, Step(c, t, calls[0]), calls[1..]);
    }
  }

  /** Running two sequences of calls is running the first, then the second. */
  lemma {:induction false} RunAppend(c: Codec, t: Table, xs: seq<Call>, ys: seq<Call>)
    ensures Run(c, t, xs + ys) == Run(c, Run(c, t, xs), ys)
    decreases |xs|
  {
    if xs == [] {
      assert xs + ys == ys;
    } else {
      assert (xs + ys)[0] == xs[0];
      assert (xs + ys)[1..] == xs[1..] + ys;
      RunAppend(c, Step(c, t, xs[0]), xs[1..], ys);
    }
  }

  /** Calls that neither name `id` nor clear the table leave its row alone:
      operations on different ids are independent. */
  lemma {:induction false} RunUntouched(c: Codec, t: Table, calls: seq<Call>, id: string)
    requires forall i | 0 <= i < |calls| :: !Touches(calls[i], id)
    ensures Lookup(c, Run(c, t, calls), id) == Lookup(c, t, id)
    ensures id in t ==> id in Run(c, t, calls) && Run(c, t, calls)[id] == t[id]
    decreases |calls|
  {
    if calls != [] {
      var t' := Step(c, t, calls[0]);
      assert !Touches(calls[0], id);
      assert Lookup(c, t', id) == Lookup(c, t, id);
      assert id in t ==> id in t' && t'[id] == t[id];
      RunUntouched(c, t', calls[1..], id);
    }
  }

  /** A missing id stays missing through any calls that do not put it. */
  lemma {:induction false} AbsentStaysAbsent(c: Codec, t: Table, calls: seq<Call>, id: string)
    requires id !in t
    requires forall i | 0 <= i < |calls| :: !Writes(calls[i], id)
    ensures Lookup(c, Run(c, t, calls), id) == None
    decreases |calls|
  {
    if calls != [] {
      assert !Writes(calls[0], id);
      AbsentStaysAbsent(c, Step(c, t, calls[0]), calls[1..], id);
    }
  }

  /** Last write wins: after a history whose last call naming `id` is
      `put(id, f, compress)`, `get(id)` returns `f` with that call's metadata,
      however many puts, deletes and clears came before. */
  lemma LastPutWins(c: Codec, t: Table, before: seq<Call>, id: string, f: File, compress: bool,
                    cachedAt: int, after: seq<Call>)
    requires Lossless(c)
    requires forall i | 0 <= i < |after| :: !Touches(after[i], id)
    ensures Lookup(c, Run(c, t, before + [PutCall(id, f, compress, cachedAt)] + after), id)
            == Some(Retrieved(f, PutMetadata(c, f, compress)))
  {
    var put := PutCall(id, f, compress, cachedAt);
    var t0 := Run(c, t, before);
    RunAppend(c, t, before + [put], after);
    RunAppend(c, t, before, [put]);
    assert [put][1..] == [];
    GetAfterPut(c, t0, id, f, compress, cachedAt);
    RunUntouched(c, Step(c, t0, put), after, id);
  }

  /** After `delete(id)`, `get(id)` misses until `id` is put again. */
  lemma DeletedStaysAbsent(c: Codec, t: Table, before: seq<Call>, id: string, after: seq<Call>)
    requires forall i | 0 <= i < |after| :: !Writes(after[i], id)
    ensures Lookup(c, Run(c, t, before + [DeleteCall(id)] + after), id) == None
  {
    var t0 := Run(c, t, before);
    RunAppend(c, t, before + [DeleteCall(id)], after);
    RunAppend(c, t, before, [DeleteCall(id)]);
    assert [DeleteCall(id)][1..] == [];
    AbsentStaysAbsent(c, Step(c, t0, DeleteCall(id)), after, id);
  }

  /** After `clear()`, `get` misses for every id not put since. */
  lemma ClearedStaysAbsent(c: Codec, t: Table, before: seq<Call>, after: seq<Call>, id: string)
    requires forall i | 0 <= i < |after| :: !Writes(after[i], id)
    ensures Lookup(c, Run(c, t, before + [ClearCall] + after), id) == None
  {
    var t0 := Run(c, t, before);
    RunAppend(c, t, before + [ClearCall], after);
    RunAppend(c, t, before, [ClearCall]);
    assert [ClearCall][1..] == [];
    AbsentStaysAbsent(c, Step(c, t0, ClearCall), after, id);
  }

  /** The two test cases of tests/FileCache.test.ts, on a fresh store, plus the
      same file put uncompressed: "Hello, World!" comes back byte for byte with
      size 13, compressed or not, and is gone after a delete. */
  method HelloWorld(c: Codec, now: int) returns (zipped: Option<Retrieved>, raw: Option<Retrieved>, deleted: Option<Retrieved>)
    requires Lossless(c)
    ensures zipped.Some? && zipped.value.file == Hello(now)
    ensures zipped.value.metadata == FileMetadata(13, Some(|c.zip(Hello(now).bytes)|))
    ensures raw.Some? && raw.value.file == Hello(now)
    ensures raw.value.metadata == FileMetadata(13, None)
    ensures deleted.None?
  {
    var cache := new FileCache(c, map[]);
    cache.Put("id1", Hello(now), true, now);
    zipped := cache.Get("id1");
    cache.Put("k2", Hello(now), false, now);
    raw := cache.Get("k2");
    cache.Put("id2", Hello(now), true, now);
    cache.Delete("id2");
    deleted := cache.Get("id2");
  }

  /** The test's file: "test.txt", text/plain, holding the 13 bytes of
      "Hello, World!". */
  function Hello(lastModified: int): File
  {
    File("test.txt", "text/plain", lastModified,
         [0x48, 0x65, 0x6c, 0x6c, 0x6f, 0x2c, 0x20, 0x57, 0x6f, 0x72, 0x6c, 0x64, 0x21])
  }
}
