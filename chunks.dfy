/** The temporary folder seen as a store from file names to contents, and
    the scans `post`, `write` and `clean` run over it: starting at chunk 1,
    look at chunk 2, 3, ... until the first number whose file is missing. */
module Chunks {
  import opened Basics
  import opened Decimal
  import opened Naming

  /** The files of the temporary folder: name to contents. */
  type Store = map<string, seq<byte>>

  /** The file names of chunks 1 to `n - 1` under `prefix`. */
  function KeysBelow(prefix: string, n: nat): (r: set<string>) {
    set i | 1 <= i < n :: prefix + NatToString(i)
  }

  /** One more chunk name, and it is new: chunk numbers never share a name. */
  lemma KeysBelowStep(prefix: string, n: nat)
    requires n >= 1
    ensures KeysBelow(prefix, n + 1) == KeysBelow(prefix, n) + {prefix + NatToString(n)}
    ensures prefix + NatToString(n) !in KeysBelow(prefix, n)
  {
    if prefix + NatToString(n) in KeysBelow(prefix, n) {
      var i :| 1 <= i < n && prefix + NatToString(i) == prefix + NatToString(n);
      PrefixKeysDistinct(prefix, i, n);
    }
  }

  /** The contents of chunks `n`, `n + 1`, ... up to (not including) the
      first number whose file is missing. */
  function Run(store: Store, prefix: string, n: nat): (r: seq<seq<byte>>)
    requires n >= 1
    decreases store.Keys - KeysBelow(prefix, n)
  {
    var key := prefix + NatToString(n);
    if key in store then
      KeysBelowStep(prefix, n);
      [store[key]] + Run(store, prefix, n + 1)
    else []
  }

  /** The run holds the contents of consecutive present chunks, in number
      order, and stops at a missing one. */
  lemma {:induction false} RunFacts(store: Store, prefix: string, n: nat)
    requires n >= 1
    ensures var r := Run(store, prefix, n);
            && (forall i :: n <= i < n + |r| ==>
                  prefix + NatToString(i) in store && r[i - n] == store[prefix + NatToString(i)])
            && prefix + NatToString(n + |r|) !in store
    decreases store.Keys - KeysBelow(prefix, n)
  {
    if prefix + NatToString(n) in store {
      KeysBelowStep(prefix, n);
      RunFacts(store, prefix, n + 1);
    }
  }

  /** One step of the assembler's scan: chunk `n` is present, so the run from
      `n` is its contents followed by the run from `n + 1`, and fewer files
      remain unvisited. */
  lemma RunStep(store: Store, prefix: string, n: nat)
    requires n >= 1 && prefix + NatToString(n) in store
    ensures Concat(Run(store, prefix, n)) == store[prefix + NatToString(n)] + Concat(Run(store, prefix, n + 1))
    ensures store.Keys - KeysBelow(prefix, n + 1) < store.Keys - KeysBelow(prefix, n)
  {
    var rest := Run(store, prefix, n + 1);
    KeysBelowStep(prefix, n);
    assert Run(store, prefix, n) == [store[prefix + NatToString(n)]] + rest;
    assert ([store[prefix + NatToString(n)]] + rest)[1..] == rest;
  }

  /** One step of the cleaner's scan: deleting chunk `n` after chunks 1 to
      `n - 1` leaves the store without chunks 1 to `n`. */
  lemma CleanStep(store: Store, prefix: string, n: nat)
    requires n >= 1
    ensures (store - KeysBelow(prefix, n)) - {prefix + NatToString(n)} == store - KeysBelow(prefix, n + 1)
  {
    KeysBelowStep(prefix, n);
  }

  /** The first chunk number whose file is missing. */
  function FirstGap(store: Store, prefix: string): (k: nat) {
    1 + |Run(store, prefix, 1)|
  }

  /** Chunks 1 to `FirstGap - 1` are present and chunk `FirstGap` is not. */
  lemma FirstGapFacts(store: Store, prefix: string)
    ensures var k := FirstGap(store, prefix);
            && k >= 1 && prefix + NatToString(k) !in store
            && forall i :: 1 <= i < k ==> prefix + NatToString(i) in store
  {
    RunFacts(store, prefix, 1);
  }

  /** The upload is complete: chunks 1 to `count` are all present. */
  predicate AllPresent(store: Store, prefix: string, count: nat) {
    forall i :: 1 <= i <= count ==> prefix + NatToString(i) in store
  }

  /** Complete exactly when the first missing number lies past `count`. */
  lemma AllPresentIffGapPast(store: Store, prefix: string, count: nat)
    ensures AllPresent(store, prefix, count) <==> FirstGap(store, prefix) > count
  {
    FirstGapFacts(store, prefix);
  }

  /** The first gap is the number the scan stops at. */
  lemma FirstGapAt(store: Store, prefix: string, k: nat)
    requires k >= 1 && prefix + NatToString(k) !in store
    requires forall i :: 1 <= i < k ==> prefix + NatToString(i) in store
    ensures FirstGap(store, prefix) == k
  {
    FirstGapFacts(store, prefix);
  }

  /** What the assembler writes: chunks 1, 2, ... in order, up to the gap. */
  function Assembled(store: Store, prefix: string): (r: seq<byte>) {
    Concat(Run(store, prefix, 1))
  }

  /** Round trip: when the store holds a file's chunks 1 to `n` as the client
      cut them, and no chunk `n + 1`, the assembler writes the file back. */
  lemma AssembleSplitRoundTrip(store: Store, prefix: string, chunks: seq<seq<byte>>)
    requires forall i :: 1 <= i <= |chunks| ==>
               prefix + NatToString(i) in store && store[prefix + NatToString(i)] == chunks[i - 1]
    requires prefix + NatToString(|chunks| + 1) !in store
    ensures Assembled(store, prefix) == Concat(chunks)
  {
    FirstGapAt(store, prefix, |chunks| + 1);
    RunFacts(store, prefix, 1);
    var r := Run(store, prefix, 1);
    assert |r| == |chunks|;
    forall j | 0 <= j < |r|
      ensures r[j] == chunks[j]
    {
      var key := prefix + NatToString(j + 1);
      assert key in store && r[j + 1 - 1] == store[key] == chunks[j + 1 - 1];
    }
    assert r == chunks;
  }

  /** The scan from chunk `n` reads chunks `n` to `|chunks|` as they are
      stored and then goes on with whatever follows them. */
  lemma {:induction false} RunThrough(store: Store, prefix: string, chunks: seq<seq<byte>>, n: nat)
    requires 1 <= n <= |chunks| + 1
    requires forall i :: 1 <= i <= |chunks| ==>
               prefix + NatToString(i) in store && store[prefix + NatToString(i)] == chunks[i - 1]
    ensures Concat(Run(store, prefix, n)) == Concat(chunks[n - 1..]) + Concat(Run(store, prefix, |chunks| + 1))
    decreases |chunks| + 1 - n
  {
    if n <= |chunks| {
      RunStep(store, prefix, n);
      RunThrough(store, prefix, chunks, n + 1);
      assert chunks[n - 1..] == [chunks[n - 1]] + chunks[n..];
    } else {
      assert chunks[n - 1..] == [];
    }
  }

  /** The assembler does not know how many chunks the upload has: when a
      chunk `n + 1` of the same cleaned identifier is still on disk, left over
      from an earlier upload, its bytes (and those of any chunks after it)
      are appended to the file's. */
  lemma AssembleAppendsStaleChunks(store: Store, prefix: string, chunks: seq<seq<byte>>)
    requires forall i :: 1 <= i <= |chunks| ==>
               prefix + NatToString(i) in store && store[prefix + NatToString(i)] == chunks[i - 1]
    requires prefix + NatToString(|chunks| + 1) in store && store[prefix + NatToString(|chunks| + 1)] != []
    ensures Assembled(store, prefix) == Concat(chunks) + Concat(Run(store, prefix, |chunks| + 1))
    ensures |Assembled(store, prefix)| > |Concat(chunks)|
  {
    RunThrough(store, prefix, chunks, 1);
    assert chunks[0..] == chunks;
    RunStep(store, prefix, |chunks| + 1);
  }

  /** What `clean` leaves behind: the store without chunks 1 to the first gap. */
  function Cleaned(store: Store, prefix: string): (r: Store) {
    store - KeysBelow(prefix, FirstGap(store, prefix))
  }

  /** `clean` removes exactly the chunks before the first gap: afterwards
      chunk 1 is missing (so nothing of the upload is reachable by scanning),
      every other file, of this upload past the gap or of any other upload, is
      kept with its contents, and no file is added. */
  lemma CleanedFacts(store: Store, prefix: string)
    ensures var after := Cleaned(store, prefix);
            && prefix + NatToString(1) !in after
            && Run(after, prefix, 1) == []
            && after.Keys <= store.Keys
            && (forall i :: 1 <= i < FirstGap(store, prefix) ==> prefix + NatToString(i) !in after)
            && (forall i :: i >= FirstGap(store, prefix) ==>
                  (prefix + NatToString(i) in after <==> prefix + NatToString(i) in store))
            && (forall key :: key in after ==> after[key] == store[key])
  {
    var g := FirstGap(store, prefix);
    var after := Cleaned(store, prefix);
    FirstGapFacts(store, prefix);
    forall i | i >= g
      ensures prefix + NatToString(i) !in KeysBelow(prefix, g)
    {
      if prefix + NatToString(i) in KeysBelow(prefix, g) {
        var j :| 1 <= j < g && prefix + NatToString(j) == prefix + NatToString(i);
        PrefixKeysDistinct(prefix, j, i);
      }
    }
    if g == 1 {
      assert prefix + NatToString(1) !in store;
    } else {
      assert prefix + NatToString(1) in KeysBelow(prefix, g);
    }
  }

  /** The files of another upload, whose identifier cleans differently, are
      not touched by cleaning this one. The names are built by concatenation;
      under `AsWritten` the source's `path.join` can map two such identifiers
      to one file, so for the source this holds under `AllowList` only. */
  lemma CleanKeepsOtherUploads(store: Store, dir: string, rule: IdentifierRule, id: string,
                               other: string, n: nat)
    requires CleanWith(rule, other) != CleanWith(rule, id)
    ensures var key := ChunkFilename(dir, rule, other, n);
            key in Cleaned(store, ChunkPrefix(dir, rule, id)) <==> key in store
  {
    var prefix := ChunkPrefix(dir, rule, id);
    var key := ChunkFilename(dir, rule, other, n);
    if key in KeysBelow(prefix, FirstGap(store, prefix)) {
      var j :| 1 <= j < FirstGap(store, prefix) && prefix + NatToString(j) == key;
      assert ChunkFilename(dir, rule, id, j) == key;
      ChunkFilenameInjective(dir, rule, id, j, other, n);
    }
  }

  /** Storing two different chunks of one upload gives the same folder in
      either order: chunks may arrive out of order. */
  lemma StoresCommute(store: Store, dir: string, rule: IdentifierRule, id: string,
                      n: nat, a: seq<byte>, m: nat, b: seq<byte>)
    requires n != m
    ensures var kn, km := ChunkFilename(dir, rule, id, n), ChunkFilename(dir, rule, id, m);
            store[kn := a][km := b] == store[km := b][kn := a]
  {
    if ChunkFilename(dir, rule, id, n) == ChunkFilename(dir, rule, id, m) {
      ChunkFilenameInjective(dir, rule, id, n, id, m);
    }
  }

  /** Completion is monotone: adding or overwriting files never makes a
      complete upload incomplete. */
  lemma CompletionMonotone(store: Store, prefix: string, count: nat, key: string, data: seq<byte>)
    requires AllPresent(store, prefix, count)
    ensures AllPresent(store[key := data], prefix, count)
  {
  }
}
