/** Cutting a stream of items into batches the way every sampler and batch loop
    of the engine does: append items to a list, emit the list as soon as it holds
    `k` items, start a new one. What is left at the end is the remainder. */
module Batching {

  /** The full batches emitted while `s` streams in (none when `k < 1`: a list
      that is appended to never has length 0 or less). */
  function FullChunks<T>(s: seq<T>, k: int): seq<seq<T>>
    decreases |s|
  {
    if k < 1 || |s| < k then [] else [s[..k]] + FullChunks(s[k..], k)
  }

  /** The items still in the pending list once `s` has streamed in. */
  function Rest<T>(s: seq<T>, k: int): seq<T>
    decreases |s|
  {
    if k < 1 || |s| < k then s else Rest(s[k..], k)
  }

  function Flatten<T>(ss: seq<seq<T>>): seq<T>
  {
    if ss == [] then [] else ss[0] + Flatten(ss[1..])
  }

  /** Batches of a generator that yields a trailing batch only when it is non-empty. */
  function Batches<T>(s: seq<T>, k: int): seq<seq<T>>
  {
    FullChunks(s, k) + (if Rest(s, k) == [] then [] else [Rest(s, k)])
  }

  /** Batches of a generator that always yields the trailing batch, even when empty. */
  function Packs<T>(s: seq<T>, k: int): seq<seq<T>>
  {
    FullChunks(s, k) + [Rest(s, k)]
  }

  /** Concatenation is associative (stated once, so that callers with costly
      element facts in scope need not prove it element by element). */
  lemma AppendAssoc<T>(a: seq<T>, b: seq<T>, c: seq<T>)
    ensures a + (b + c) == (a + b) + c
  {
  }

  lemma FlattenAppend<T>(a: seq<seq<T>>, b: seq<seq<T>>)
    ensures Flatten(a + b) == Flatten(a) + Flatten(b)
  {
    if a == [] {
      assert a + b == b;
    } else {
      assert (a + b)[0] == a[0];
      assert (a + b)[1..] == a[1..] + b;
      FlattenAppend(a[1..], b);
    }
  }

  /** The full batches followed by the remainder give back the stream, every
      full batch holds exactly `k` items and the remainder fewer. */
  lemma {:induction false} ChunksCover<T>(s: seq<T>, k: int)
    ensures Flatten(FullChunks(s, k)) + Rest(s, k) == s
    ensures forall b :: b in FullChunks(s, k) ==> |b| == k
    ensures k >= 1 ==> |Rest(s, k)| < k
    decreases |s|
  {
    if k >= 1 && |s| >= k {
      ChunksCover(s[k..], k);
      assert s == s[..k] + s[k..];
    }
  }

  /** Appending one item either completes the pending batch (which is then
      emitted and the pending list emptied) or just extends the pending list. */
  lemma {:induction false} ChunksAppend<T>(s: seq<T>, x: T, k: int)
    ensures k >= 1 && |Rest(s, k)| + 1 == k ==>
              FullChunks(s + [x], k) == FullChunks(s, k) + [Rest(s, k) + [x]] && Rest(s + [x], k) == []
    ensures !(k >= 1 && |Rest(s, k)| + 1 == k) ==>
              FullChunks(s + [x], k) == FullChunks(s, k) && Rest(s + [x], k) == Rest(s, k) + [x]
    decreases |s|
  {
    if k >= 1 && |s| >= k {
      assert (s + [x])[..k] == s[..k];
      assert (s + [x])[k..] == s[k..] + [x];
      ChunksAppend(s[k..], x, k);
    } else if k >= 1 && |s| + 1 == k {
      assert (s + [x])[..k] == s + [x];
      assert (s + [x])[k..] == [];
    }
  }

  /** One step of a batch loop: `x` joins the pending list, which is emitted
      and emptied as soon as it holds `k` items. */
  method Push<T>(ghost s: seq<T>, full: seq<seq<T>>, pending: seq<T>, x: T, k: int)
    returns (full2: seq<seq<T>>, pending2: seq<T>)
    requires full == FullChunks(s, k) && pending == Rest(s, k)
    ensures full2 == FullChunks(s + [x], k) && pending2 == Rest(s + [x], k)
  {
    ChunksAppend(s, x, k);
    full2, pending2 := full, pending + [x];
    if |pending2| == k {
      full2, pending2 := full2 + [pending2], [];
    }
  }

  /** The yielded batches concatenate to the stream; each is non-empty; with
      `k >= 1` each holds at most `k` items and all but the last exactly `k`. */
  lemma BatchesProperties<T>(s: seq<T>, k: int)
    ensures Flatten(Batches(s, k)) == s
    ensures forall i :: 0 <= i < |Batches(s, k)| ==> Batches(s, k)[i] != []
    ensures k >= 1 ==> forall i :: 0 <= i < |Batches(s, k)| ==> |Batches(s, k)[i]| <= k
    ensures k >= 1 ==> forall i :: 0 <= i < |Batches(s, k)| - 1 ==> |Batches(s, k)[i]| == k
    ensures s == [] ==> Batches(s, k) == []
  {
    ChunksCover(s, k);
    var tail := if Rest(s, k) == [] then [] else [Rest(s, k)];
    FlattenAppend(FullChunks(s, k), tail);
    if Rest(s, k) != [] {
      assert Flatten(tail) == Rest(s, k) + Flatten([]);
    }
    forall i | 0 <= i < |Batches(s, k)|
      ensures Batches(s, k)[i] != []
      ensures k >= 1 ==> |Batches(s, k)[i]| <= k
    {
      if i < |FullChunks(s, k)| {
        assert FullChunks(s, k)[i] in FullChunks(s, k);
      }
    }
    forall i | 0 <= i < |Batches(s, k)| - 1
      ensures k >= 1 ==> |Batches(s, k)[i]| == k
    {
      assert i < |FullChunks(s, k)|;
      assert FullChunks(s, k)[i] in FullChunks(s, k);
    }
  }

  /** The always-trailing packs concatenate to the stream, and every pack but
      the last holds exactly `k` items. */
  lemma PacksProperties<T>(s: seq<T>, k: int)
    ensures Flatten(Packs(s, k)) == s
    ensures |Packs(s, k)| >= 1
    ensures forall i :: 0 <= i < |Packs(s, k)| - 1 ==> |Packs(s, k)[i]| == k
    ensures k >= 1 ==> |Packs(s, k)[|Packs(s, k)| - 1]| < k
  {
    ChunksCover(s, k);
    FlattenAppend(FullChunks(s, k), [Rest(s, k)]);
    assert Flatten([Rest(s, k)]) == Rest(s, k) + Flatten([]);
    forall i | 0 <= i < |Packs(s, k)| - 1
      ensures |Packs(s, k)[i]| == k
    {
      assert FullChunks(s, k)[i] in FullChunks(s, k);
    }
  }
}
