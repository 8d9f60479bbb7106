/** The embedding service: texts are deduplicated, sent in batches, normalised and cached. */
module Embeddings {
  import opened Reals
  import opened Sequences
  import opened Wrappers

  datatype Text = Text(chars: string)

  datatype Key = Key(hex: string)

  type Vector = seq<real>

  /** What the service is built on: the text hash, the square root, the provider's answer to its n-th
      call (none when it raises), and the vector the provider stands for each text. */
  datatype World = World(
    digest: Text -> Key,
    root: real -> real,
    respond: (nat, seq<Text>) -> Option<seq<Vector>>,
    vectorOf: Text -> Vector,
    dimension: nat,
    batchSize: nat)

  ghost predicate Realistic(w: World) {
    && (forall a, b :: w.digest(a) == w.digest(b) ==> a == b)
    && (forall x :: x >= 0.0 ==> w.root(x) >= 0.0 && Square(w.root(x)) == x)
    && w.batchSize >= 1
  }

  /** A call may raise or return the wrong number of vectors; otherwise it returns each text's vector. */
  ghost predicate Truthful(w: World) {
    forall n, batch, j {:trigger w.respond(n, batch).value[j]} ::
      w.respond(n, batch).Some? && |w.respond(n, batch).value| == |batch| && 0 <= j < |batch| ==>
        w.respond(n, batch).value[j] == w.vectorOf(batch[j])
  }

  // ------------------------------------------------------------------ unit vectors

  function SumSquares(v: Vector): real {
    if v == [] then 0.0 else SumSquares(v[..|v| - 1]) + Square(v[|v| - 1])
  }

  function Norm(w: World, v: Vector): real {
    w.root(SumSquares(v))
  }

  function Scaled(v: Vector, d: real): Vector
    requires d != 0.0
  {
    seq(|v|, i requires 0 <= i < |v| => v[i] / d)
  }

  function Unit(w: World, v: Vector): Vector {
    if Norm(w, v) == 0.0 then v else Scaled(v, Norm(w, v))
  }

  lemma {:induction false} SumSquaresNonNegative(v: Vector)
    ensures SumSquares(v) >= 0.0
  {
    if v != [] {
      SumSquaresNonNegative(v[..|v| - 1]);
      SquarePositive(v[|v| - 1]);
    }
  }

  lemma SquareOfQuotient(x: real, d: real)
    requires d != 0.0
    ensures Times(Square(d), Square(x / d)) == Square(x)
  {
    DivideBack(d, x);
  }

  lemma {:induction false} ScaledSquares(v: Vector, d: real)
    requires d != 0.0
    ensures Times(Square(d), SumSquares(Scaled(v, d))) == SumSquares(v)
  {
    if v != [] {
      var front, last := v[..|v| - 1], v[|v| - 1];
      ScaledSquares(front, d);
      SquareOfQuotient(last, d);
      assert Scaled(v, d)[..|v| - 1] == Scaled(front, d);
      Distribute(Square(d), SumSquares(Scaled(front, d)), Square(last / d));
    }
  }

  /** A stored vector has length one. */
  lemma UnitHasLengthOne(w: World, v: Vector)
    requires Realistic(w) && Norm(w, v) != 0.0
    ensures SumSquares(Unit(w, v)) == 1.0
  {
    var d := Norm(w, v);
    SumSquaresNonNegative(v);
    ScaledSquares(v, d);
    SquarePositive(d);
    DivideOut(Square(d), SumSquares(Unit(w, v)), Square(d));
    DivideOut(Square(d), 1.0, Square(d));
  }

  /** The vector is this one stretched by some positive factor. */
  ghost predicate SameDirection(unit: Vector, v: Vector) {
    exists length :: length > 0.0 && Stretches(length, unit, v)
  }

  ghost predicate Stretches(length: real, unit: Vector, v: Vector) {
    |unit| == |v| && forall i :: 0 <= i < |v| ==> Times(length, unit[i]) == v[i]
  }

  lemma UnitKeepsDirection(w: World, v: Vector)
    requires Realistic(w) && Norm(w, v) != 0.0
    ensures SameDirection(Unit(w, v), v)
  {
    var length := Norm(w, v);
    SumSquaresNonNegative(v);
    assert Square(0.0) == 0.0;
    forall i | 0 <= i < |v| ensures Times(length, Unit(w, v)[i]) == v[i] { DivideBack(length, v[i]); }
    assert Stretches(length, Unit(w, v), v);
  }

  // ------------------------------------------------------------------ the cache

  type Cache = map<Key, Vector>

  /** A vector the service accepts. */
  predicate Usable(w: World, v: Vector) {
    |v| == w.dimension && Norm(w, v) != 0.0
  }

  /** Whatever is cached is the unit vector of its text. */
  ghost predicate Correct(w: World, cache: Cache) {
    forall t :: w.digest(t) in cache ==> Usable(w, w.vectorOf(t)) && cache[w.digest(t)] == Unit(w, w.vectorOf(t))
  }

  /** The texts to send, each once, in order of first occurrence. */
  function Missing(w: World, cache: Cache, texts: seq<Text>): seq<Text> {
    if texts == [] then []
    else
      var front, last := Missing(w, cache, texts[..|texts| - 1]), texts[|texts| - 1];
      if w.digest(last) in cache || last in front then front else front + [last]
  }

  function Filled(w: World, cache: Cache, texts: seq<Text>): Cache {
    if texts == [] then cache
    else
      var last := texts[|texts| - 1];
      Filled(w, cache, texts[..|texts| - 1])[w.digest(last) := Unit(w, w.vectorOf(last))]
  }

  lemma {:induction false} MissingOnce(w: World, cache: Cache, texts: seq<Text>)
    ensures Distinct(Missing(w, cache, texts))
  {
    if texts != [] { MissingOnce(w, cache, texts[..|texts| - 1]); }
  }

  /** Later texts are sent after earlier ones. */
  lemma {:induction false} MissingInOrder(w: World, cache: Cache, texts: seq<Text>, n: nat)
    requires n <= |texts|
    ensures Missing(w, cache, texts[..n]) <= Missing(w, cache, texts)
  {
    if n == |texts| {
      assert texts[..n] == texts;
    } else {
      assert texts[..|texts| - 1][..n] == texts[..n];
      MissingInOrder(w, cache, texts[..|texts| - 1], n);
    }
  }

  lemma {:induction false} MissingExact(w: World, cache: Cache, texts: seq<Text>)
    ensures forall t :: t in Missing(w, cache, texts) <==> t in texts && w.digest(t) !in cache
  {
    if texts != [] {
      MissingExact(w, cache, texts[..|texts| - 1]);
      assert texts == texts[..|texts| - 1] + [texts[|texts| - 1]];
    }
  }

  lemma {:induction false} FilledExact(w: World, cache: Cache, texts: seq<Text>)
    requires Realistic(w)
    ensures forall k :: k in cache ==> k in Filled(w, cache, texts)
    ensures forall t :: w.digest(t) in Filled(w, cache, texts) <==> w.digest(t) in cache || t in texts
    ensures forall t :: t in texts ==> Filled(w, cache, texts)[w.digest(t)] == Unit(w, w.vectorOf(t))
    ensures forall t :: t !in texts && w.digest(t) in cache ==>
              Filled(w, cache, texts)[w.digest(t)] == cache[w.digest(t)]
  {
    if texts != [] {
      FilledExact(w, cache, texts[..|texts| - 1]);
      assert texts == texts[..|texts| - 1] + [texts[|texts| - 1]];
    }
  }

  // ------------------------------------------------------------------ one call

  datatype Result =
    | Embedded(vectors: seq<Vector>)
    | ProviderRaised | WrongBatchSize | WrongDimension | ZeroNorm

  /** The cache and the batches sent to the provider so far. */
  datatype State = State(cache: Cache, sent: seq<seq<Text>>)

  function Flat(batches: seq<seq<Text>>): seq<Text> {
    if batches == [] then [] else Flat(batches[..|batches| - 1]) + batches[|batches| - 1]
  }

  /** Every batch but the last is full. */
  ghost predicate Batched(batches: seq<seq<Text>>, size: nat) {
    && (forall i :: 0 <= i < |batches| ==> 1 <= |batches[i]| <= size)
    && (forall i :: 0 <= i < |batches| - 1 ==> |batches[i]| == size)
  }

  /** What was sent: the missing texts in order, up to some point; what was stored: the unit vectors of
      the first `stored` of them. */
  ghost predicate Sends(
      w: World, before: State, after: State, missing: seq<Text>, batches: seq<seq<Text>>, stored: nat) {
    match after
    case State(cache, sent) =>
      && sent == before.sent + batches
      && Batched(batches, w.batchSize)
      && stored <= |Flat(batches)| && Flat(batches) <= missing
      && cache == Filled(w, before.cache, missing[..stored])
      && forall t :: t in missing[..stored] ==> Usable(w, w.vectorOf(t))
  }

  /** Call number `n` came back with a vector for each text. */
  ghost predicate Answered(w: World, n: nat, batch: seq<Text>) {
    w.respond(n, batch).Some? && |w.respond(n, batch).value| == |batch|
  }

  ghost predicate AllAnswered(w: World, n: nat, batches: seq<seq<Text>>) {
    forall i: nat :: i < |batches| ==> Answered(w, n + i, batches[i])
  }

  /** Text number `stored` has a vector that is refused. */
  ghost predicate BadVector(w: World, batch: seq<Text>, stored: nat, fault: Result) {
    && stored < |batch|
    && var v := w.vectorOf(batch[stored]);
       || (fault.WrongDimension? && |v| != w.dimension)
       || (fault.ZeroNorm? && |v| == w.dimension && Norm(w, v) == 0.0)
  }

  /** What a call comes to grief on: the provider raised, or returned another number of vectors, and nothing was
      stored; or the first vector not stored has the wrong dimension or no length. */
  ghost predicate Faulted(w: World, n: nat, batch: seq<Text>, stored: nat, fault: Result) {
    match fault
    case ProviderRaised => stored == 0 && w.respond(n, batch).None?
    case WrongBatchSize => stored == 0 && w.respond(n, batch).Some? && !Answered(w, n, batch)
    case _ => Answered(w, n, batch) && BadVector(w, batch, stored, fault)
  }

  /** Every call but the last was answered and stored in full, and the last failed. */
  ghost predicate LastFaulted(w: World, n: nat, batches: seq<seq<Text>>, stored: nat, fault: Result) {
    && batches != []
    && var front := batches[..|batches| - 1];
       && AllAnswered(w, n, front) && |Flat(front)| <= stored
       && Faulted(w, n + |front|, batches[|front|], stored - |Flat(front)|, fault)
  }

  /** A success means that every call was answered and sends and stores everything missing, and returns each
      text's unit vector in input order; a call that raises does so for a fault of its last batch, and keeps
      what it stored before. */
  ghost predicate Embeds(w: World, before: State, after: State, texts: seq<Text>, result: Result) {
    exists batches, stored ::
      var missing := Missing(w, before.cache, texts);
      && Sends(w, before, after, missing, batches, stored)
      && Explained(w, |before.sent|, batches, stored, |missing|, result)
      && (result.Embedded? ==>
            result.vectors == seq(|texts|, i requires 0 <= i < |texts| => Unit(w, w.vectorOf(texts[i]))))
  }

  ghost predicate Explained(w: World, n: nat, batches: seq<seq<Text>>, stored: nat, missing: nat, result: Result) {
    if result.Embedded? then stored == missing && AllAnswered(w, n, batches)
    else LastFaulted(w, n, batches, stored, result)
  }

  lemma {:induction false} FilledTwice(w: World, cache: Cache, a: seq<Text>, b: seq<Text>)
    ensures Filled(w, Filled(w, cache, a), b) == Filled(w, cache, a + b)
  {
    if b == [] {
      assert a + b == a;
    } else {
      FilledTwice(w, cache, a, b[..|b| - 1]);
      assert (a + b)[..|a + b| - 1] == a + b[..|b| - 1];
    }
  }

  /** The state between two batches: everything sent is stored, and only a last batch is not full. */
  ghost predicate BetweenBatches(
      w: World, before: State, after: State, missing: seq<Text>, batches: seq<seq<Text>>, start: nat) {
    && start <= |missing| && Flat(batches) == missing[..start] && AllAnswered(w, |before.sent|, batches)
    && Sends(w, before, after, missing, batches, start)
    && (start < |missing| ==> forall i :: 0 <= i < |batches| ==> |batches[i]| == w.batchSize)
  }

  lemma StoreSome(w: World, before: Cache, cache: Cache, missing: seq<Text>, start: nat, stored: nat)
    requires start <= stored <= |missing| && cache == Filled(w, before, missing[..start])
    requires forall t :: t in missing[..start] || t in missing[start..stored] ==> Usable(w, w.vectorOf(t))
    ensures Filled(w, cache, missing[start..stored]) == Filled(w, before, missing[..stored])
    ensures forall t :: t in missing[..stored] ==> Usable(w, w.vectorOf(t))
  {
    FilledTwice(w, before, missing[..start], missing[start..stored]);
    assert missing[..start] + missing[start..stored] == missing[..stored];
  }

  lemma BatchSent(w: World, before: State, after: State, missing: seq<Text>, batches: seq<seq<Text>>,
                  start: nat, stop: nat, stored: nat, cache: Cache)
    requires BetweenBatches(w, before, after, missing, batches, start) && start < |missing|
    requires stop == if start + w.batchSize < |missing| then start + w.batchSize else |missing|
    requires w.batchSize >= 1 && start <= stored <= stop
    requires cache == Filled(w, after.cache, missing[start..stored])
    requires forall t :: t in missing[start..stored] ==> Usable(w, w.vectorOf(t))
    ensures var more, batch := batches + [missing[start..stop]], missing[start..stop];
            && Flat(more) == missing[..stop]
            && Sends(w, before, State(cache, after.sent + [batch]), missing, more, stored)
  {
    StoreSome(w, before.cache, after.cache, missing, start, stored);
    assert before.sent + batches + [missing[start..stop]] == before.sent + (batches + [missing[start..stop]]);
  }

  /** What sending one more batch comes to. */
  ghost predicate BatchDone(w: World, before: State, after: State, missing: seq<Text>, more: seq<seq<Text>>,
                            stop: nat, stored: nat, fault: Option<Result>) {
    match fault
    case None => BetweenBatches(w, before, after, missing, more, stop)
    case Some(result) =>
      && stored <= |missing| && !result.Embedded?
      && Sends(w, before, after, missing, more, stored)
      && LastFaulted(w, |before.sent|, more, stored, result)
  }

  /** What an exchange over one batch leaves: the vectors of its first texts stored, all or up to a fault. */
  ghost predicate Exchanged(
      w: World, entry: State, after: State, batch: seq<Text>, stored: nat, fault: Option<Result>) {
    && after.sent == entry.sent + [batch]
    && stored <= |batch| && after.cache == Filled(w, entry.cache, batch[..stored])
    && (forall t :: t in batch[..stored] ==> Usable(w, w.vectorOf(t)))
    && (fault.None? ==> stored == |batch| && Answered(w, |entry.sent|, batch))
    && (fault.Some? ==> Faulted(w, |entry.sent|, batch, stored, fault.value))
  }

  lemma SliceOfSlice(s: seq<Text>, start: nat, stop: nat, count: nat)
    requires start <= stop <= |s| && count <= stop - start
    ensures s[start..stop][..count] == s[start..start + count]
    ensures s[..start] + s[start..stop] == s[..stop]
  {}

  lemma OneMoreAnswered(w: World, n: nat, batches: seq<seq<Text>>, batch: seq<Text>)
    requires AllAnswered(w, n, batches) && Answered(w, n + |batches|, batch)
    ensures AllAnswered(w, n, batches + [batch])
  {}

  lemma BatchSucceeds(w: World, before: State, entry: State, after: State, missing: seq<Text>,
                      batches: seq<seq<Text>>, start: nat, stop: nat)
    requires BetweenBatches(w, before, entry, missing, batches, start) && start < |missing| && w.batchSize >= 1
    requires stop == if start + w.batchSize < |missing| then start + w.batchSize else |missing|
    requires Exchanged(w, entry, after, missing[start..stop], stop - start, None)
    ensures BetweenBatches(w, before, after, missing, batches + [missing[start..stop]], stop)
  {
    SliceOfSlice(missing, start, stop, stop - start);
    BatchSent(w, before, entry, missing, batches, start, stop, stop, after.cache);
    OneMoreAnswered(w, |before.sent|, batches, missing[start..stop]);
  }

  lemma LastBatchFaulted(
      w: World, n: nat, batches: seq<seq<Text>>, batch: seq<Text>, start: nat, stored: nat, fault: Result)
    requires AllAnswered(w, n, batches) && |Flat(batches)| == start
    requires Faulted(w, n + |batches|, batch, stored, fault)
    ensures LastFaulted(w, n, batches + [batch], start + stored, fault)
  {
    assert (batches + [batch])[..|batches|] == batches;
  }

  lemma BatchFails(w: World, before: State, entry: State, after: State, missing: seq<Text>,
                   batches: seq<seq<Text>>, start: nat, stop: nat, count: nat, stored: nat, result: Result)
    requires BetweenBatches(w, before, entry, missing, batches, start) && start < |missing| && w.batchSize >= 1
    requires stop == if start + w.batchSize < |missing| then start + w.batchSize else |missing|
    requires Exchanged(w, entry, after, missing[start..stop], count, Some(result)) && stored == start + count
    ensures Sends(w, before, after, missing, batches + [missing[start..stop]], stored)
    ensures LastFaulted(w, |before.sent|, batches + [missing[start..stop]], stored, result)
  {
    LastBatchFaulted(w, |before.sent|, batches, missing[start..stop], start, count, result);
    SliceOfSlice(missing, start, stop, count);
    BatchSent(w, before, entry, missing, batches, start, stop, stored, after.cache);
  }

  lemma BatchOutcome(w: World, before: State, entry: State, after: State, missing: seq<Text>,
                     batches: seq<seq<Text>>, more: seq<seq<Text>>, start: nat, stop: nat, count: nat, stored: nat,
                     fault: Option<Result>)
    requires BetweenBatches(w, before, entry, missing, batches, start) && start < |missing| && w.batchSize >= 1
    requires stop == if start + w.batchSize < |missing| then start + w.batchSize else |missing|
    requires Exchanged(w, entry, after, missing[start..stop], count, fault) && stored == start + count
    requires more == batches + [missing[start..stop]]
    ensures BatchDone(w, before, after, missing, more, stop, stored, fault)
  {
    if fault.None? {
      BatchSucceeds(w, before, entry, after, missing, batches, start, stop);
    } else {
      BatchFails(w, before, entry, after, missing, batches, start, stop, count, stored, fault.value);
    }
  }

  class EmbeddingService {
    const world: World
    var cache: Cache
    /** The calls made to the provider. */
    var sent: seq<seq<Text>>

    constructor (world: World)
      ensures this.world == world && Snapshot() == State(map[], [])
    {
      this.world := world;
      cache, sent := map[], [];
    }

    function Snapshot(): State
      reads this
    {
      State(cache, sent)
    }

    /** Checks, normalises and caches the vectors of one batch; stops at the first bad one. */
    method StoreBatch(batch: seq<Text>, vectors: seq<Vector>) returns (fault: Option<Result>, ghost stored: nat)
      requires |vectors| == |batch| && forall j :: 0 <= j < |batch| ==> vectors[j] == world.vectorOf(batch[j])
      modifies this`cache
      ensures stored <= |batch| && cache == Filled(world, old(cache), batch[..stored])
      ensures forall t :: t in batch[..stored] ==> Usable(world, world.vectorOf(t))
      ensures fault.None? ==> stored == |batch|
      ensures fault.Some? ==> BadVector(world, batch, stored, fault.value)
    {
      stored := 0;
      for j := 0 to |batch|
        invariant stored == j && cache == Filled(world, old(cache), batch[..j])
        invariant forall t :: t in batch[..j] ==> Usable(world, world.vectorOf(t))
      {
        var vector := vectors[j];
        assert batch[j] in batch;
        if |vector| != world.dimension {
          return Some(WrongDimension), stored;
        }
        var norm := Norm(world, vector);
        if norm == 0.0 {
          return Some(ZeroNorm), stored;
        }
        assert batch[..j + 1] == batch[..j] + [batch[j]] && batch[..j + 1][..j] == batch[..j];
        cache := cache[world.digest(batch[j]) := Scaled(vector, norm)];
        stored := j + 1;
      }
      assert batch[..|batch|] == batch;
      fault := None;
    }

    method FindMissing(texts: seq<Text>) returns (missing: seq<Text>)
      ensures missing == Missing(world, cache, texts)
    {
      missing := [];
      for i := 0 to |texts|
        invariant missing == Missing(world, cache, texts[..i])
      {
        assert texts[..i + 1][..i] == texts[..i];
        if world.digest(texts[i]) !in cache && texts[i] !in missing {
          missing := missing + [texts[i]];
        }
      }
      assert texts[..|texts|] == texts;
    }

    /** One call to the provider, and what it returned checked and stored. */
    method Exchange(batch: seq<Text>) returns (fault: Option<Result>, ghost stored: nat)
      requires Truthful(world)
      modifies this
      ensures Exchanged(world, old(Snapshot()), Snapshot(), batch, stored, fault)
    {
      var reply := world.respond(|sent|, batch);
      sent := sent + [batch];
      stored := 0;
      assert batch[..0] == [];
      if reply.None? {
        return Some(ProviderRaised), stored;
      }
      if |reply.value| != |batch| {
        return Some(WrongBatchSize), stored;
      }
      fault, stored := StoreBatch(batch, reply.value);
    }

    /** Sends the next batch of the missing texts and stores its vectors. */
    method SendBatch(missing: seq<Text>, start: nat, ghost before: State, ghost batches: seq<seq<Text>>)
      returns (fault: Option<Result>, stop: nat, ghost stored: nat)
      requires Truthful(world) && world.batchSize >= 1 && start < |missing|
      requires BetweenBatches(world, before, Snapshot(), missing, batches, start)
      modifies this
      ensures start < stop <= |missing|
      ensures BatchDone(world, before, Snapshot(), missing, batches + [missing[start..stop]], stop, stored, fault)
    {
      stop := if start + world.batchSize < |missing| then start + world.batchSize else |missing|;
      ghost var entry, count := Snapshot(), 0;
      fault, count := Exchange(missing[start..stop]);
      ghost var after := Snapshot();
      stored := start + count;
      BatchOutcome(world, before, entry, after, missing, batches, batches + [missing[start..stop]], start, stop,
                   count, stored, fault);
    }

    method Embed(texts: seq<Text>) returns (result: Result)
      requires Realistic(world) && Truthful(world) && Correct(world, cache)
      modifies this
      ensures Embeds(world, old(Snapshot()), Snapshot(), texts, result)
    {
      var missing := FindMissing(texts);
      ghost var before := Snapshot();
      ghost var batches: seq<seq<Text>> := [];
      var start := 0;
      while start < |missing|
        invariant 0 <= start && BetweenBatches(world, before, Snapshot(), missing, batches, start)
      {
        var fault, stop, stored := SendBatch(missing, start, before, batches);
        batches := batches + [missing[start..stop]];
        if fault.Some? {
          EmbedsFromSends(world, before, Snapshot(), texts, batches, stored, fault.value);
          return fault.value;
        }
        start := stop;
      }
      assert missing[..|missing|] == missing;
      AllCached(world, before.cache, texts, cache);
      result := Embedded(Lookup(world, cache, texts));
      EmbedsFromSends(world, before, Snapshot(), texts, batches, start, result);
    }
  }

  /** The cached vector of each text; the default stands for a key error, which cannot happen. */
  function Lookup(w: World, cache: Cache, texts: seq<Text>): seq<Vector> {
    seq(|texts|, i requires 0 <= i < |texts| =>
      if w.digest(texts[i]) in cache then cache[w.digest(texts[i])] else [])
  }

  lemma EmbedsFromSends(
      w: World, before: State, after: State, texts: seq<Text>, batches: seq<seq<Text>>, stored: nat, result: Result)
    requires Sends(w, before, after, Missing(w, before.cache, texts), batches, stored)
    requires Explained(w, |before.sent|, batches, stored, |Missing(w, before.cache, texts)|, result)
    requires result.Embedded? ==>
               result.vectors == seq(|texts|, i requires 0 <= i < |texts| => Unit(w, w.vectorOf(texts[i])))
    ensures Embeds(w, before, after, texts, result)
  {}

  lemma AllCached(w: World, cache: Cache, texts: seq<Text>, after: Cache)
    requires Realistic(w) && Correct(w, cache) && after == Filled(w, cache, Missing(w, cache, texts))
    ensures forall t :: t in texts ==> w.digest(t) in after && after[w.digest(t)] == Unit(w, w.vectorOf(t))
  {
    MissingExact(w, cache, texts);
    FilledExact(w, cache, Missing(w, cache, texts));
  }

  // ------------------------------------------------------------------ any number of calls

  lemma {:induction false} FlatHasAll(batches: seq<seq<Text>>, b: seq<Text>, t: Text)
    requires b in batches && t in b
    ensures t in Flat(batches)
  {
    var front, last := batches[..|batches| - 1], batches[|batches| - 1];
    assert batches == front + [last];
    if b in front { FlatHasAll(front, b, t); }
  }

  ghost predicate NothingCachedIn(w: World, cache: Cache, batch: seq<Text>) {
    forall t :: t in batch ==> w.digest(t) !in cache
  }

  lemma BatchesAreNew(w: World, cache: Cache, texts: seq<Text>, batches: seq<seq<Text>>, i: nat)
    requires Flat(batches) <= Missing(w, cache, texts) && i < |batches|
    ensures NothingCachedIn(w, cache, batches[i])
  {
    MissingExact(w, cache, texts);
    forall t | t in batches[i] ensures w.digest(t) !in cache {
      FlatHasAll(batches, batches[i], t);
      assert t in Missing(w, cache, texts);
    }
  }

  lemma StoringKeepsCache(w: World, cache: Cache, stored: seq<Text>)
    requires Realistic(w) && Correct(w, cache) && forall t :: t in stored ==> Usable(w, w.vectorOf(t))
    ensures Correct(w, Filled(w, cache, stored)) && forall k :: k in cache ==> k in Filled(w, cache, stored)
  {
    FilledExact(w, cache, stored);
  }

  lemma SentIsNew(w: World, before: State, after: State, texts: seq<Text>, batches: seq<seq<Text>>, stored: nat, i: nat)
    requires Sends(w, before, after, Missing(w, before.cache, texts), batches, stored)
    requires |before.sent| <= i < |after.sent|
    ensures |after.sent[i]| <= w.batchSize && NothingCachedIn(w, before.cache, after.sent[i])
  {
    assert after.sent[i] == batches[i - |before.sent|];
    BatchesAreNew(w, before.cache, texts, batches, i - |before.sent|);
  }

  /** A call keeps the cache correct, keeps what is cached, and sends no text that is cached already. */
  lemma CallKeepsCache(w: World, before: State, after: State, texts: seq<Text>, result: Result)
    requires Realistic(w) && Correct(w, before.cache) && Embeds(w, before, after, texts, result)
    ensures Correct(w, after.cache)
    ensures forall k :: k in before.cache ==> k in after.cache
    ensures before.sent <= after.sent
    ensures forall i :: |before.sent| <= i < |after.sent| ==>
              |after.sent[i]| <= w.batchSize && NothingCachedIn(w, before.cache, after.sent[i])
  {
    var missing := Missing(w, before.cache, texts);
    var batches, stored: nat :| Sends(w, before, after, missing, batches, stored);
    StoringKeepsCache(w, before.cache, missing[..stored]);
    forall i | |before.sent| <= i < |after.sent|
      ensures |after.sent[i]| <= w.batchSize && NothingCachedIn(w, before.cache, after.sent[i])
    {
      SentIsNew(w, before, after, texts, batches, stored, i);
    }
  }

  /** A call sends each text at most once, and none that is cached or was not asked for; one that succeeds
      has sent every other text. */
  lemma SentOnce(w: World, before: State, after: State, texts: seq<Text>, result: Result, t: Text)
    requires Embeds(w, before, after, texts, result)
    ensures before.sent <= after.sent
    ensures var times := multiset(Flat(after.sent[|before.sent|..]))[t];
            var wanted := if t in texts && w.digest(t) !in before.cache then 1 else 0;
            times <= wanted && (result.Embedded? ==> times == wanted)
  {
    var missing := Missing(w, before.cache, texts);
    var batches, stored: nat :| Sends(w, before, after, missing, batches, stored)
      && Explained(w, |before.sent|, batches, stored, |missing|, result);
    assert after.sent[|before.sent|..] == batches;
    MissingOnce(w, before.cache, texts);
    MissingExact(w, before.cache, texts);
    TimesInPrefix(Flat(batches), missing, t);
  }

  lemma TimesInPrefix(part: seq<Text>, whole: seq<Text>, t: Text)
    requires part <= whole && Distinct(whole)
    ensures multiset(part)[t] <= (if t in whole then 1 else 0)
    ensures |part| == |whole| ==> multiset(part)[t] == if t in whole then 1 else 0
  {
    assert whole == part + whole[|part|..];
    DistinctMultiplicity(whole, t);
    assert multiset(whole) == multiset(part) + multiset(whole[|part|..]);
    assert t in multiset(whole) <==> t in whole;
  }

  /** States before and after each of a sequence of calls to one service. */
  ghost predicate IsHistory(w: World, states: seq<State>, calls: seq<seq<Text>>, results: seq<Result>) {
    && |states| == |calls| + 1 && |results| == |calls|
    && states[0] == State(map[], [])
    && forall i :: 0 <= i < |calls| ==> Embeds(w, states[i], states[i + 1], calls[i], results[i])
  }

  lemma {:induction false} HistoryStaysCorrect(
      w: World, states: seq<State>, calls: seq<seq<Text>>, results: seq<Result>, i: nat, j: nat)
    requires Realistic(w) && IsHistory(w, states, calls, results) && i <= j < |states|
    ensures Correct(w, states[j].cache)
    ensures forall k :: k in states[i].cache ==> k in states[j].cache
    ensures states[i].sent <= states[j].sent
    decreases j
  {
    if j > 0 {
      HistoryStaysCorrect(w, states, calls, results, if i < j then i else j - 1, j - 1);
      CallKeepsCache(w, states[j - 1], states[j], calls[j - 1], results[j - 1]);
    }
  }

  /** Over any sequence of calls, with any faults: once a text is cached it is never sent again. */
  lemma CachedTextsAreNeverResent(
      w: World, states: seq<State>, calls: seq<seq<Text>>, results: seq<Result>, i: nat, j: nat, t: Text, b: nat)
    requires Realistic(w) && IsHistory(w, states, calls, results) && i <= j < |calls|
    requires w.digest(t) in states[i].cache && |states[j].sent| <= b < |states[j + 1].sent|
    ensures t !in states[j + 1].sent[b]
  {
    HistoryStaysCorrect(w, states, calls, results, i, j);
    CallKeepsCache(w, states[j], states[j + 1], calls[j], results[j]);
  }

  /** Over any sequence of calls, with any faults, every entry has length one and points where the provider's
      vector of its text points. */
  lemma EntriesHaveLengthOne(w: World, states: seq<State>, calls: seq<seq<Text>>, results: seq<Result>, j: nat, t: Text)
    requires Realistic(w) && IsHistory(w, states, calls, results) && j < |states| && w.digest(t) in states[j].cache
    ensures var entry := states[j].cache[w.digest(t)];
            && |entry| == w.dimension && SumSquares(entry) == 1.0
            && SameDirection(entry, w.vectorOf(t))
  {
    HistoryStaysCorrect(w, states, calls, results, j, j);
    UnitKeepsDirection(w, w.vectorOf(t));
    UnitHasLengthOne(w, w.vectorOf(t));
  }
}
