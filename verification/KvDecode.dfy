/** The generic backend's decode step: positions, causal sliding-window mask, per-layer K/V caches. */
module KvDecode {
  import opened Common

  type Vector = seq<real>
  type Token = int

  /** Per-layer mathematics of an architecture, with one attention call per layer on 2-D Q/K/V. Queries and keys may be
      rotated by their position. Attention is a function of the query and of the (K, V) pairs that the mask lets through. */
  datatype Architecture = Architecture(
    layers: nat,
    embed: (Token, nat) -> Vector,
    query: (nat, nat, Vector) -> Vector,
    key: (nat, nat, Vector) -> Vector,
    value: (nat, Vector) -> Vector,
    attend: (nat, Vector, seq<(Vector, Vector)>) -> Vector,
    block: (nat, Vector, Vector) -> Vector,
    output: Vector -> Vector,
    zero: Vector)

  /** How many positions, itself included, position `q` attends to: the last `window` of them, or all when the window
      is not positive or reaches back to the beginning. */
  function Span(window: int, q: nat): (n: nat)
    ensures 0 < n <= q + 1
  {
    if 0 < window <= q then window else q + 1
  }

  // ----- the reference run over a whole token sequence

  /** Hidden state of position `i` below layer `l`, defined without any cache or batch. */
  ghost function Hidden(arch: Architecture, window: int, tokens: seq<Token>, l: nat, i: nat): Vector
    requires i < |tokens|
    decreases l
  {
    if l == 0 then arch.embed(tokens[i], i)
    else
      var below := Hidden(arch, window, tokens, l - 1, i);
      var lo := i + 1 - Span(window, i);
      var visible := seq(i + 1 - lo, d requires 0 <= d < i + 1 - lo =>
        (arch.key(l - 1, lo + d, Hidden(arch, window, tokens, l - 1, lo + d)), arch.value(l - 1, Hidden(arch, window, tokens, l - 1, lo + d))));
      arch.block(l - 1, below, arch.attend(l - 1, arch.query(l - 1, i, below), visible))
  }

  ghost function KeyAt(arch: Architecture, window: int, tokens: seq<Token>, l: nat, i: nat): Vector
    requires i < |tokens|
  {
    arch.key(l, i, Hidden(arch, window, tokens, l, i))
  }

  ghost function ValueAt(arch: Architecture, window: int, tokens: seq<Token>, l: nat, i: nat): Vector
    requires i < |tokens|
  {
    arch.value(l, Hidden(arch, window, tokens, l, i))
  }

  /** The (K, V) pairs of the positions from `lo` up to `hi`. */
  ghost function Pairs(arch: Architecture, window: int, tokens: seq<Token>, l: nat, lo: nat, hi: nat): (s: seq<(Vector, Vector)>)
    requires lo <= hi <= |tokens|
    ensures |s| == hi - lo
    ensures forall d :: 0 <= d < hi - lo ==> s[d] == (KeyAt(arch, window, tokens, l, lo + d), ValueAt(arch, window, tokens, l, lo + d))
  {
    seq(hi - lo, d requires 0 <= d < hi - lo => (KeyAt(arch, window, tokens, l, lo + d), ValueAt(arch, window, tokens, l, lo + d)))
  }

  /** Each layer attends to the last `window` positions, or to all of them when there are no more than that. */
  lemma HiddenStep(arch: Architecture, window: int, tokens: seq<Token>, l: nat, i: nat)
    requires i < |tokens|
    ensures var seen := if window <= 0 || i < window then i + 1 else window;
            Hidden(arch, window, tokens, l + 1, i)
            == arch.block(l, Hidden(arch, window, tokens, l, i),
                          arch.attend(l, arch.query(l, i, Hidden(arch, window, tokens, l, i)),
                                      Pairs(arch, window, tokens, l, i + 1 - seen, i + 1)))
  {
    var lo := i + 1 - Span(window, i);
    assert seq(i + 1 - lo, d requires 0 <= d < i + 1 - lo =>
        (arch.key(l, lo + d, Hidden(arch, window, tokens, l, lo + d)), arch.value(l, Hidden(arch, window, tokens, l, lo + d))))
      == Pairs(arch, window, tokens, l, lo, i + 1);
  }

  /** A hidden state depends only on the tokens up to its position. */
  lemma {:induction false} HiddenIsCausal(arch: Architecture, window: int, left: seq<Token>, right: seq<Token>, l: nat, i: nat)
    requires i < |left| && i < |right| && left[..i + 1] == right[..i + 1]
    ensures Hidden(arch, window, left, l, i) == Hidden(arch, window, right, l, i)
    decreases l
  {
    if l == 0 {
      assert left[i] == left[..i + 1][i] && right[i] == right[..i + 1][i];
    } else {
      hide Hidden;
      var lo, below := i + 1 - Span(window, i), l - 1;
      HiddenStep(arch, window, left, below, i);
      HiddenStep(arch, window, right, below, i);
      forall j | 0 <= j <= i
        ensures Hidden(arch, window, left, below, j) == Hidden(arch, window, right, below, j)
      {
        assert left[..j + 1] == left[..i + 1][..j + 1];
        assert right[..j + 1] == right[..i + 1][..j + 1];
        HiddenIsCausal(arch, window, left, right, below, j);
      }
      assert Pairs(arch, window, left, below, lo, i + 1) == Pairs(arch, window, right, below, lo, i + 1);
    }
  }

  // ----- masked attention over cached and current keys

  /** The pairs whose mask entry is open, in order. */
  function Allowed(keys: seq<Vector>, values: seq<Vector>, mask: seq<bool>): seq<(Vector, Vector)>
    requires |keys| == |values| == |mask|
  {
    if mask == [] then []
    else
      var n := |mask| - 1;
      Allowed(keys[..n], values[..n], mask[..n]) + (if mask[n] then [(keys[n], values[n])] else [])
  }

  /** A mask that is open exactly between `lo` and `hi` lets exactly that slice through. */
  lemma {:induction false} AllowedSlice(keys: seq<Vector>, values: seq<Vector>, mask: seq<bool>, lo: nat, hi: nat)
    requires |keys| == |values| == |mask| && lo <= hi <= |mask|
    requires forall k :: 0 <= k < |mask| ==> mask[k] == (lo <= k < hi)
    ensures |Allowed(keys, values, mask)| == hi - lo
    ensures forall d :: 0 <= d < hi - lo ==> Allowed(keys, values, mask)[d] == (keys[lo + d], values[lo + d])
  {
    if mask != [] {
      var n := |mask| - 1;
      if hi > n {
        if lo > n {
          AllowedNothing(keys[..n], values[..n], mask[..n]);
        } else {
          AllowedSlice(keys[..n], values[..n], mask[..n], lo, n);
        }
      } else {
        AllowedSlice(keys[..n], values[..n], mask[..n], lo, hi);
      }
    }
  }

  lemma {:induction false} AllowedNothing(keys: seq<Vector>, values: seq<Vector>, mask: seq<bool>)
    requires |keys| == |values| == |mask| && forall k :: 0 <= k < |mask| ==> !mask[k]
    ensures Allowed(keys, values, mask) == []
  {
    if mask != [] {
      var n := |mask| - 1;
      AllowedNothing(keys[..n], values[..n], mask[..n]);
    }
  }

  /** The mask row of one query position: open for the keys up to it, but not for keys a whole window back. */
  ghost predicate IsMaskRow(row: seq<bool>, window: int, position: nat, total: nat) {
    |row| == total && forall k :: 0 <= k < total ==> row[k] == (k <= position && (window > 0 ==> position - k < window))
  }

  method MaskRow(window: int, position: nat, total: nat) returns (row: seq<bool>)
    ensures IsMaskRow(row, window, position, total)
    ensures |row| == total
    ensures forall k :: 0 <= k < total ==> (row[k] <==> k <= position && (window > 0 ==> position - k < window))
  {
    var minKey := if window > 0 && position - window + 1 > 0 then position - window + 1 else 0;
    row := [];
    while |row| < total
      invariant |row| <= total
      invariant forall k :: 0 <= k < |row| ==> row[k] == (minKey <= k <= position)
    {
      row := row + [minKey <= |row| <= position];
    }
  }

  /** A mask row lets through the last `window` keys up to its position, or all of them when there are no more than that. */
  lemma OpenKeys(keys: seq<Vector>, values: seq<Vector>, row: seq<bool>, window: int, position: nat)
    requires |keys| == |values| && position < |keys| && IsMaskRow(row, window, position, |keys|)
    ensures |Allowed(keys, values, row)| == if window <= 0 || position < window then position + 1 else window
    ensures forall d :: 0 <= d < |Allowed(keys, values, row)| ==>
              var k := position + 1 - |Allowed(keys, values, row)| + d; Allowed(keys, values, row)[d] == (keys[k], values[k])
  {
    hide Allowed;
    AllowedSlice(keys, values, row, position + 1 - Span(window, position), position + 1);
  }

  // ----- the context

  /** Keys and values of one layer, one slot per context position. */
  datatype LayerCache = LayerCache(k: seq<Vector>, v: seq<Vector>)

  /** K/V tensors of one layer of the current batch, to be copied into the cache after the graph ran. */
  datatype CacheUpdate = CacheUpdate(layer: nat, k: seq<Vector>, v: seq<Vector>)

  /** The first `n` slots hold the K/V of the reference run and the others are still cleared. */
  ghost predicate Holds(arch: Architecture, window: int, tokens: seq<Token>, l: nat, cache: LayerCache, n: nat, nCtx: nat) {
    && n <= |tokens| && n <= nCtx && |cache.k| == |cache.v| == nCtx
    && (forall j :: 0 <= j < n ==> cache.k[j] == KeyAt(arch, window, tokens, l, j) && cache.v[j] == ValueAt(arch, window, tokens, l, j))
    && (forall j :: n <= j < nCtx ==> cache.k[j] == arch.zero && cache.v[j] == arch.zero)
  }

  lemma HoldsLonger(arch: Architecture, window: int, tokens: seq<Token>, longer: seq<Token>, l: nat, cache: LayerCache, n: nat, nCtx: nat)
    requires Holds(arch, window, tokens, l, cache, n, nCtx) && tokens <= longer
    ensures Holds(arch, window, longer, l, cache, n, nCtx)
  {
    hide Hidden;
    forall j | 0 <= j < n
      ensures KeyAt(arch, window, tokens, l, j) == KeyAt(arch, window, longer, l, j)
      ensures ValueAt(arch, window, tokens, l, j) == ValueAt(arch, window, longer, l, j)
    {
      HiddenIsCausal(arch, window, tokens, longer, l, j);
    }
  }

  /** Copies a batch into the slots from `past` on. */
  function Written(slots: seq<Vector>, past: nat, batch: seq<Vector>): (s: seq<Vector>)
    requires past + |batch| <= |slots|
    ensures |s| == |slots|
    ensures forall j :: 0 <= j < |slots| ==> s[j] == if past <= j < past + |batch| then batch[j - past] else slots[j]
  {
    slots[..past] + batch + slots[past + |batch|..]
  }

  lemma HoldsWritten(arch: Architecture, window: int, tokens: seq<Token>, l: nat, cache: LayerCache, past: nat, nCtx: nat,
                     k: seq<Vector>, v: seq<Vector>)
    requires Holds(arch, window, tokens, l, cache, past, nCtx) && |tokens| == past + |k| <= nCtx && |k| == |v|
    requires forall i :: 0 <= i < |k| ==> k[i] == KeyAt(arch, window, tokens, l, past + i) && v[i] == ValueAt(arch, window, tokens, l, past + i)
    ensures Holds(arch, window, tokens, l, LayerCache(Written(cache.k, past, k), Written(cache.v, past, v)), |tokens|, nCtx)
  {
    hide KeyAt, ValueAt;
    var after := LayerCache(Written(cache.k, past, k), Written(cache.v, past, v));
    forall j | past <= j < |tokens|
      ensures after.k[j] == KeyAt(arch, window, tokens, l, j) && after.v[j] == ValueAt(arch, window, tokens, l, j)
    {
      var i := j - past;
      assert past + i == j;
    }
  }

  /** The positions of a batch count on from those already decoded. */
  predicate ArePositions(positions: seq<nat>, past: nat, n: nat) {
    |positions| == n && forall i :: 0 <= i < n ==> positions[i] == past + i
  }

  /** The hidden states of the positions after `past`. */
  ghost predicate HiddenBatch(arch: Architecture, window: int, tokens: seq<Token>, l: nat, past: nat, hidden: seq<Vector>) {
    |tokens| == past + |hidden| &&
    forall i :: 0 <= i < |hidden| ==> hidden[i] == Hidden(arch, window, tokens, l, past + i)
  }

  ghost predicate KvBatch(arch: Architecture, window: int, tokens: seq<Token>, l: nat, past: nat, k: seq<Vector>, v: seq<Vector>) {
    |tokens| == past + |k| && |k| == |v| &&
    forall i :: 0 <= i < |k| ==> k[i] == KeyAt(arch, window, tokens, l, past + i) && v[i] == ValueAt(arch, window, tokens, l, past + i)
  }

  ghost predicate MaskRows(mask: seq<seq<bool>>, window: int, past: nat) {
    forall i :: 0 <= i < |mask| ==> IsMaskRow(mask[i], window, past + i, past + |mask|)
  }

  /** Embeds every token of the batch at its absolute position. */
  method Embed(arch: Architecture, ghost window: int, ghost history: seq<Token>, batch: seq<Token>, positions: seq<nat>) returns (hidden: seq<Vector>)
    requires ArePositions(positions, |history|, |batch|)
    ensures HiddenBatch(arch, window, history + batch, 0, |history|, hidden)
  {
    hidden := [];
    while |hidden| < |batch|
      invariant |hidden| <= |batch|
      invariant forall i :: 0 <= i < |hidden| ==> hidden[i] == Hidden(arch, window, history + batch, 0, |history| + i)
    {
      hidden := hidden + [arch.embed(batch[|hidden|], positions[|hidden|])];
    }
  }

  /** Projects the hidden states of the batch to keys and values. */
  method Project(arch: Architecture, ghost window: int, ghost tokens: seq<Token>, l: nat, ghost past: nat, positions: seq<nat>,
                 hidden: seq<Vector>)
    returns (k: seq<Vector>, v: seq<Vector>)
    requires HiddenBatch(arch, window, tokens, l, past, hidden) && ArePositions(positions, past, |hidden|)
    ensures KvBatch(arch, window, tokens, l, past, k, v) && |k| == |hidden|
  {
    hide Hidden;
    k, v := [], [];
    while |k| < |hidden|
      invariant |k| == |v| <= |hidden|
      invariant forall i :: 0 <= i < |k| ==>
                  k[i] == KeyAt(arch, window, tokens, l, past + i) && v[i] == ValueAt(arch, window, tokens, l, past + i)
    {
      k, v := k + [arch.key(l, positions[|k|], hidden[|k|])], v + [arch.value(l, hidden[|k|])];
    }
  }

  /** The cached pairs followed by the current ones are the pairs of all positions so far. */
  lemma Concatenated(arch: Architecture, window: int, tokens: seq<Token>, l: nat, cache: LayerCache, past: nat, nCtx: nat,
                     k: seq<Vector>, v: seq<Vector>)
    requires Holds(arch, window, tokens, l, cache, past, nCtx) && KvBatch(arch, window, tokens, l, past, k, v)
    ensures |cache.k[..past] + k| == |cache.v[..past] + v| == |tokens|
    ensures forall j :: 0 <= j < |tokens| ==>
              (cache.k[..past] + k)[j] == KeyAt(arch, window, tokens, l, j) && (cache.v[..past] + v)[j] == ValueAt(arch, window, tokens, l, j)
  {
    hide KeyAt, ValueAt;
    forall j | past <= j < |tokens|
      ensures (cache.k[..past] + k)[j] == KeyAt(arch, window, tokens, l, j) && (cache.v[..past] + v)[j] == ValueAt(arch, window, tokens, l, j)
    {
      var i := j - past;
      assert past + i == j;
    }
  }

  lemma AttendsReference(arch: Architecture, window: int, tokens: seq<Token>, l: nat, position: nat,
                         keys: seq<Vector>, values: seq<Vector>, row: seq<bool>)
    requires position < |tokens| && |keys| == |values| == |tokens| && IsMaskRow(row, window, position, |tokens|)
    requires forall j :: 0 <= j < |tokens| ==> keys[j] == KeyAt(arch, window, tokens, l, j) && values[j] == ValueAt(arch, window, tokens, l, j)
    ensures Allowed(keys, values, row) == Pairs(arch, window, tokens, l, position + 1 - Span(window, position), position + 1)
  {
    hide KeyAt, ValueAt, Allowed;
    OpenKeys(keys, values, row, window, position);
  }

  /** One layer over the batch: attention over cached and current keys under the mask, then the block. */
  method RunLayer(arch: Architecture, ghost window: int, ghost tokens: seq<Token>, l: nat, past: nat, ghost nCtx: nat, cache: LayerCache,
                  mask: seq<seq<bool>>, positions: seq<nat>, hidden: seq<Vector>)
    returns (k: seq<Vector>, v: seq<Vector>, above: seq<Vector>)
    requires HiddenBatch(arch, window, tokens, l, past, hidden) && Holds(arch, window, tokens, l, cache, past, nCtx)
    requires |mask| == |hidden| && MaskRows(mask, window, past) && ArePositions(positions, past, |hidden|)
    ensures KvBatch(arch, window, tokens, l, past, k, v) && |k| == |hidden|
    ensures HiddenBatch(arch, window, tokens, l + 1, past, above) && |above| == |hidden|
  {
    hide Hidden, KeyAt, ValueAt, IsMaskRow, Allowed;
    k, v := Project(arch, window, tokens, l, past, positions, hidden);
    var kAll, vAll := cache.k[..past] + k, cache.v[..past] + v;
    Concatenated(arch, window, tokens, l, cache, past, nCtx, k, v);
    above := [];
    var upper := l + 1;
    while |above| < |hidden|
      invariant |above| <= |hidden|
      invariant forall i :: 0 <= i < |above| ==> above[i] == Hidden(arch, window, tokens, upper, past + i)
    {
      var i := |above|;
      assert IsMaskRow(mask[i], window, past + i, |tokens|);
      RowLength(mask[i], window, past + i, |tokens|);
      AttendsReference(arch, window, tokens, l, past + i, kAll, vAll, mask[i]);
      HiddenStep(arch, window, tokens, l, past + i);
      var attended := arch.attend(l, arch.query(l, positions[i], hidden[i]), Allowed(kAll, vAll, mask[i]));
      above := above + [arch.block(l, hidden[i], attended)];
    }
  }

  lemma RowLength(row: seq<bool>, window: int, position: nat, total: nat)
    requires IsMaskRow(row, window, position, total)
    ensures |row| == total
  {
  }

  /** Every cached layer holds the reference K/V of the first `n` positions. */
  ghost predicate CachesHold(arch: Architecture, window: int, tokens: seq<Token>, caches: seq<Option<LayerCache>>, n: nat, nCtx: nat) {
    forall l :: 0 <= l < |caches| ==> caches[l].Some? && Holds(arch, window, tokens, l, caches[l].value, n, nCtx)
  }

  /** The updates gathered while the graph was built: one per layer, in layer order. */
  ghost predicate UpdatesHold(arch: Architecture, window: int, tokens: seq<Token>, past: nat, updates: seq<CacheUpdate>) {
    forall u :: 0 <= u < |updates| ==>
      updates[u].layer == u && KvBatch(arch, window, tokens, u, past, updates[u].k, updates[u].v)
  }

  /** Finds the cache of a layer, creating a cleared one the first time the layer is seen. */
  method EnsureLayerCache(arch: Architecture, ghost window: int, ghost tokens: seq<Token>, caches: seq<Option<LayerCache>>, layer: nat,
                          ghost past: nat, nCtx: nat)
    returns (after: seq<Option<LayerCache>>)
    requires CachesHold(arch, window, tokens, caches, past, nCtx) && layer <= |caches| && past <= |tokens| && past <= nCtx
    requires layer == |caches| ==> past == 0
    ensures CachesHold(arch, window, tokens, after, past, nCtx)
    ensures |after| == (if layer == |caches| then layer + 1 else |caches|)
  {
    hide KeyAt, ValueAt;
    after := caches;
    if layer >= |after| {
      after := after + [None];
    }
    if after[layer].None? {
      var cleared := seq(nCtx, _ => arch.zero);
      after := after[layer := Some(LayerCache(cleared, cleared))];
    }
  }

  /** Builds the graph of all layers: final hidden states and the cache updates to apply afterwards. */
  method BuildGraph(arch: Architecture, ghost window: int, ghost history: seq<Token>, past: nat, batch: seq<Token>,
                    caches: seq<Option<LayerCache>>, nCtx: nat, mask: seq<seq<bool>>, positions: seq<nat>)
    returns (grown: seq<Option<LayerCache>>, updates: seq<CacheUpdate>, hidden: seq<Vector>)
    requires past == |history| <= nCtx && CachesHold(arch, window, history + batch, caches, past, nCtx)
    requires |caches| == (if past == 0 then 0 else arch.layers)
    requires |mask| == |batch| && ArePositions(positions, past, |batch|)
    requires MaskRows(mask, window, past)
    ensures |grown| == |updates| == arch.layers && CachesHold(arch, window, history + batch, grown, past, nCtx)
    ensures UpdatesHold(arch, window, history + batch, past, updates)
    ensures HiddenBatch(arch, window, history + batch, arch.layers, past, hidden)
  {
    hide Holds, KvBatch, HiddenBatch, MaskRows;
    ghost var tokens := history + batch;
    hidden := Embed(arch, window, history, batch, positions);
    assert |hidden| == |batch| by { BatchLength(arch, window, tokens, 0, past, hidden); }
    grown, updates := caches, [];
    var l := 0;
    while l < arch.layers
      invariant 0 <= l <= arch.layers && |updates| == l && |hidden| == |batch|
      invariant |grown| == (if past == 0 then l else arch.layers)
      invariant CachesHold(arch, window, tokens, grown, past, nCtx)
      invariant UpdatesHold(arch, window, tokens, past, updates)
      invariant HiddenBatch(arch, window, tokens, l, past, hidden)
    {
      grown := EnsureLayerCache(arch, window, tokens, grown, l, past, nCtx);
      var k, v, above := RunLayer(arch, window, tokens, l, past, nCtx, grown[l].value, mask, positions, hidden);
      updates := updates + [CacheUpdate(l, k, v)];
      hidden := above;
      l := l + 1;
    }
  }

  lemma BatchLength(arch: Architecture, window: int, tokens: seq<Token>, l: nat, past: nat, hidden: seq<Vector>)
    requires HiddenBatch(arch, window, tokens, l, past, hidden)
    ensures |tokens| == past + |hidden|
  {
  }

  /** Copies the K/V of every update behind the positions already cached. */
  method ApplyUpdates(arch: Architecture, ghost window: int, ghost tokens: seq<Token>, past: nat, ghost nCtx: nat,
                      caches: seq<Option<LayerCache>>, updates: seq<CacheUpdate>)
    returns (after: seq<Option<LayerCache>>)
    requires |caches| == |updates| && CachesHold(arch, window, tokens, caches, past, nCtx) && past <= |tokens| <= nCtx
    requires UpdatesHold(arch, window, tokens, past, updates)
    ensures |after| == |caches| && CachesHold(arch, window, tokens, after, |tokens|, nCtx)
  {
    hide KeyAt, ValueAt, CachesHold, Holds, KvBatch;
    after := caches;
    var u := 0;
    assert forall l :: 0 <= l < |caches| ==> caches[l].Some? && Holds(arch, window, tokens, l, caches[l].value, past, nCtx) by {
      CachesAt(arch, window, tokens, caches, past, nCtx);
    }
    while u < |updates|
      invariant 0 <= u <= |updates| == |after|
      invariant forall l :: 0 <= l < |after| ==>
                  after[l].Some? && Holds(arch, window, tokens, l, after[l].value, if l < u then |tokens| else past, nCtx)
    {
      var cache := after[u].value;
      assert Holds(arch, window, tokens, u, cache, past, nCtx);
      assert KvBatch(arch, window, tokens, u, past, updates[u].k, updates[u].v);
      UpdateFits(arch, window, tokens, u, cache, past, nCtx, updates[u].k, updates[u].v);
      after := after[u := Some(LayerCache(Written(cache.k, past, updates[u].k), Written(cache.v, past, updates[u].v)))];
      u := u + 1;
    }
    CachesIntro(arch, window, tokens, after, |tokens|, nCtx);
  }

  lemma CachesAt(arch: Architecture, window: int, tokens: seq<Token>, caches: seq<Option<LayerCache>>, n: nat, nCtx: nat)
    requires CachesHold(arch, window, tokens, caches, n, nCtx)
    ensures forall l :: 0 <= l < |caches| ==> caches[l].Some? && Holds(arch, window, tokens, l, caches[l].value, n, nCtx)
  {
  }

  lemma CachesIntro(arch: Architecture, window: int, tokens: seq<Token>, caches: seq<Option<LayerCache>>, n: nat, nCtx: nat)
    requires forall l :: 0 <= l < |caches| ==> caches[l].Some? && Holds(arch, window, tokens, l, caches[l].value, n, nCtx)
    ensures CachesHold(arch, window, tokens, caches, n, nCtx)
  {
    hide Holds;
  }

  lemma UpdateFits(arch: Architecture, window: int, tokens: seq<Token>, l: nat, cache: LayerCache, past: nat, nCtx: nat,
                   k: seq<Vector>, v: seq<Vector>)
    requires Holds(arch, window, tokens, l, cache, past, nCtx) && KvBatch(arch, window, tokens, l, past, k, v) && |tokens| <= nCtx
    ensures past + |k| <= |cache.k| && past + |v| <= |cache.v|
    ensures Holds(arch, window, tokens, l, LayerCache(Written(cache.k, past, k), Written(cache.v, past, v)), |tokens|, nCtx)
  {
    hide KeyAt, ValueAt;
    HoldsWritten(arch, window, tokens, l, cache, past, nCtx, k, v);
  }

  /** The mask of a batch: one row per query position over all positions so far. */
  method BuildMask(window: int, past: nat, n: nat) returns (mask: seq<seq<bool>>)
    ensures |mask| == n && MaskRows(mask, window, past)
  {
    hide IsMaskRow;
    mask := [];
    var total := past + n;
    while |mask| < n
      invariant |mask| <= n
      invariant forall q :: 0 <= q < |mask| ==> IsMaskRow(mask[q], window, past + q, total)
    {
      var row := MaskRow(window, past + |mask|, total);
      mask := mask + [row];
    }
  }

  lemma LongerHistory(arch: Architecture, window: int, history: seq<Token>, batch: seq<Token>, caches: seq<Option<LayerCache>>, n: nat, nCtx: nat)
    requires CachesHold(arch, window, history, caches, n, nCtx)
    ensures CachesHold(arch, window, history + batch, caches, n, nCtx)
  {
    hide Holds;
    forall l | 0 <= l < |caches|
      ensures Holds(arch, window, history + batch, l, caches[l].value, n, nCtx)
    {
      HoldsLonger(arch, window, history, history + batch, l, caches[l].value, n, nCtx);
    }
  }

  lemma LastHidden(arch: Architecture, window: int, tokens: seq<Token>, past: nat, hidden: seq<Vector>)
    requires HiddenBatch(arch, window, tokens, arch.layers, past, hidden) && hidden != []
    ensures hidden[|hidden| - 1] == Hidden(arch, window, tokens, arch.layers, |tokens| - 1)
  {
    hide Hidden;
    assert past + (|hidden| - 1) == |tokens| - 1;
  }

  /** Runs one accepted batch: inputs, graph, cache updates, and the logits of its last token. */
  method RunBatch(arch: Architecture, window: int, ghost history: seq<Token>, past: nat, batch: seq<Token>,
                  caches: seq<Option<LayerCache>>, nCtx: nat)
    returns (after: seq<Option<LayerCache>>, logits: Vector)
    requires past == |history| && past + |batch| <= nCtx && batch != []
    requires |caches| == (if past == 0 then 0 else arch.layers) && CachesHold(arch, window, history, caches, past, nCtx)
    ensures |after| == arch.layers && CachesHold(arch, window, history + batch, after, past + |batch|, nCtx)
    ensures logits == arch.output(Hidden(arch, window, history + batch, arch.layers, past + |batch| - 1))
  {
    hide CachesHold, MaskRows, UpdatesHold, HiddenBatch, Hidden;
    var n := |batch|;
    var positions := seq(n, i requires 0 <= i < n => past + i);
    var mask := BuildMask(window, past, n);
    LongerHistory(arch, window, history, batch, caches, past, nCtx);
    var grown, updates, hidden := BuildGraph(arch, window, history, past, batch, caches, nCtx, mask, positions);
    after := ApplyUpdates(arch, window, history + batch, past, nCtx, grown, updates);
    BatchLength(arch, window, history + batch, arch.layers, past, hidden);
    LastHidden(arch, window, history + batch, past, hidden);
    logits := arch.output(hidden[n - 1]);
  }

  class GenericContext {
    const arch: Architecture
    const window: int
    const nCtx: nat
    var nPast: nat
    var layerCaches: seq<Option<LayerCache>>
    var logits: Vector
    ghost var history: seq<Token>   // every token decoded so far

    /** The caches and the logits are those of one reference run over the whole history. */
    ghost predicate Valid()
      reads this
    {
      && nPast == |history| <= nCtx
      && |layerCaches| == (if history == [] then 0 else arch.layers)
      && CachesHold(arch, window, history, layerCaches, nPast, nCtx)
      && logits == (if history == [] then [] else arch.output(Hidden(arch, window, history, arch.layers, nPast - 1)))
    }

    constructor (arch: Architecture, window: int, nCtx: nat)
      requires nCtx > 0
      ensures Valid() && history == [] && this.arch == arch && this.window == window && this.nCtx == nCtx
    {
      this.arch, this.window, this.nCtx := arch, window, nCtx;
      nPast, layerCaches, logits, history := 0, [], [], [];
    }

    /** Decodes one batch. It is refused exactly when it is empty or exceeds the context, and then nothing changes. */
    method Decode(batch: seq<Token>) returns (ok: bool)
      requires Valid()
      modifies this
      ensures Valid()
      ensures ok <==> batch != [] && old(nPast) + |batch| <= nCtx
      ensures history == if ok then old(history) + batch else old(history)
      ensures !ok ==> nPast == old(nPast) && layerCaches == old(layerCaches) && logits == old(logits)
    {
      hide CachesHold, Hidden;
      if |batch| == 0 {
        return false;
      }
      if nPast + |batch| > nCtx {
        return false;
      }
      layerCaches, logits := RunBatch(arch, window, history, nPast, batch, layerCaches, nCtx);
      nPast := nPast + |batch|;
      history := history + batch;
      return true;
    }
  }

  // ----- batch splits

  function Flatten(batches: seq<seq<Token>>): seq<Token> {
    if batches == [] then [] else batches[0] + Flatten(batches[1..])
  }

  /** The state of a context is a function of the tokens decoded so far: how they were split into batches
      shows neither in the caches nor in the logits nor in the position. */
  lemma StateDetermined(left: GenericContext, right: GenericContext)
    requires left.Valid() && right.Valid()
    requires left.arch == right.arch && left.window == right.window && left.nCtx == right.nCtx && left.history == right.history
    ensures left.nPast == right.nPast && left.logits == right.logits && left.layerCaches == right.layerCaches
  {
    hide Hidden, Holds;
    forall l | 0 <= l < |left.layerCaches|
      ensures left.layerCaches[l] == right.layerCaches[l]
    {
      SameCache(left.arch, left.window, left.history, l, left.layerCaches[l].value, right.layerCaches[l].value, left.nPast, left.nCtx);
    }
  }

  lemma SameCache(arch: Architecture, window: int, tokens: seq<Token>, l: nat, a: LayerCache, b: LayerCache, n: nat, nCtx: nat)
    requires Holds(arch, window, tokens, l, a, n, nCtx) && Holds(arch, window, tokens, l, b, n, nCtx)
    ensures a == b
  {
    hide KeyAt, ValueAt;
    assert a.k == b.k && a.v == b.v;
  }

  /** Decodes a token sequence in any number of batches; every batch is accepted exactly when all are
      non-empty and together they fit the context. */
  method DecodeSplit(context: GenericContext, batches: seq<seq<Token>>) returns (ok: bool)
    requires context.Valid()
    modifies context
    ensures context.Valid()
    ensures ok <==> (forall b :: 0 <= b < |batches| ==> batches[b] != []) && |old(context.history)| + |Flatten(batches)| <= context.nCtx
    ensures ok ==> context.history == old(context.history) + Flatten(batches)
  {
    hide GenericContext.Valid;
    var b := 0;
    ghost var start := context.history;
    assert batches[0..] == batches;
    HistoryFits(context);
    while b < |batches|
      invariant 0 <= b <= |batches| && context.Valid()
      invariant forall c :: 0 <= c < b ==> batches[c] != []
      invariant context.history + Flatten(batches[b..]) == start + Flatten(batches)
      invariant |context.history| <= context.nCtx
    {
      assert batches[b..][1..] == batches[b + 1..];
      HistoryFits(context);
      var accepted := context.Decode(batches[b]);
      HistoryFits(context);
      if !accepted {
        return false;
      }
      b := b + 1;
    }
    return true;
  }

  lemma HistoryFits(context: GenericContext)
    requires context.Valid()
    ensures context.nPast == |context.history| <= context.nCtx
  {
  }
}
