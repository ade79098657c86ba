/**
  Dealing the shards out to clusters.
 */
module Shards {

  datatype ShardsResult = InvalidIndex | InvalidShards | Unbalanced | ShardIds(ids: seq<int>)

  /** The shard IDs of one cluster: every `total`-th one, starting at its index. */
  function Dealt(index: nat, total: nat, count: nat): seq<int> {
    seq(count, k => index + k * total)
  }

  /** Valid arguments yield every `totalClusters`-th shard; the modulo is only
      reached with a positive divisor. */
  method DeriveClusterShards(clusterIndex: int, totalClusters: int, numShards: int) returns (r: ShardsResult)
    ensures r == if clusterIndex < 0 || clusterIndex >= totalClusters then InvalidIndex
                 else if numShards <= 0 then InvalidShards
                 else if numShards % totalClusters != 0 then Unbalanced
                 else ShardIds(Dealt(clusterIndex, totalClusters, numShards / totalClusters))
  {
    if clusterIndex < 0 || clusterIndex >= totalClusters {
      return InvalidIndex;
    }
    if numShards <= 0 {
      return InvalidShards;
    }
    if numShards % totalClusters != 0 {
      return Unbalanced;
    }
    var shardIDs: seq<int> := [];
    for i := 0 to numShards
      invariant shardIDs == Dealt(clusterIndex, totalClusters, Upto(clusterIndex, totalClusters, i))
    {
      UptoNext(clusterIndex, totalClusters, i);
      if i % totalClusters == clusterIndex {
        shardIDs := shardIDs + [i];
      }
    }
    UptoAll(clusterIndex, totalClusters, numShards);
    r := ShardIds(shardIDs);
  }

  /** How many of the numbers below `i` leave remainder `index`. */
  function Upto(index: nat, total: nat, i: nat): nat
    requires index < total
  {
    (i + (total - 1 - index)) / total
  }

  lemma {:induction false} MulMonotone(a: nat, b: nat, d: nat)
    requires a < b
    ensures a * d + d <= b * d
    decreases b - a
  {
    if a + 1 < b {
      MulMonotone(a + 1, b, d);
    }
  }

  lemma DivMod(x: nat, d: nat, q: nat, r: nat)
    requires r < d && x == q * d + r
    ensures x / d == q && x % d == r
  {
    var k := x / d;
    assert x == k * d + x % d;
    if k < q {
      MulMonotone(k, q, d);
    } else if q < k {
      MulMonotone(q, k, d);
    }
  }

  /** Quotients of i and of a padded i. */
  lemma PaddedDiv(i: nat, total: nat, pad: nat)
    requires pad < total
    ensures (i + pad) / total == i / total + if i % total + pad < total then 0 else 1
  {
    var q, m := i / total, i % total;
    assert i == q * total + m;
    if m + pad < total {
      DivMod(i + pad, total, q, m + pad);
    } else {
      assert (q + 1) * total == q * total + total;
      DivMod(i + pad, total, q + 1, m + pad - total);
    }
  }

  lemma UptoIs(index: nat, total: nat, i: nat)
    requires index < total
    ensures Upto(index, total, i) == i / total + if i % total > index then 1 else 0
  {
    PaddedDiv(i, total, total - 1 - index);
  }

  lemma UptoSuccessor(index: nat, total: nat, i: nat)
    requires index < total
    ensures Upto(index, total, i + 1) == i / total + if i % total >= index then 1 else 0
  {
    if index > 0 {
      PaddedDiv(i, total, total - index);
      assert i + (total - index) == i + 1 + (total - 1 - index);
    } else {
      assert i == (i / total) * total + i % total;
      assert (i / total + 1) * total == (i / total) * total + total;
      DivMod(i + total, total, i / total + 1, i % total);
      assert i + total == i + 1 + (total - 1 - index);
    }
  }

  lemma UptoNext(index: nat, total: nat, i: nat)
    requires index < total
    ensures i % total == index ==>
              Upto(index, total, i + 1) == Upto(index, total, i) + 1 && i == index + Upto(index, total, i) * total
    ensures i % total != index ==> Upto(index, total, i + 1) == Upto(index, total, i)
  {
    UptoIs(index, total, i);
    UptoSuccessor(index, total, i);
    assert i == (i / total) * total + i % total;
  }

  lemma UptoAll(index: nat, total: nat, n: nat)
    requires index < total && n % total == 0
    ensures Upto(index, total, n) == n / total
  {
    DivMod(n + (total - 1 - index), total, n / total, total - 1 - index);
  }

  lemma DealtIsOwn(total: nat, count: nat, index: nat, k: nat)
    requires total > 0 && index < total && k < count
    ensures var shard := index + k * total; shard < count * total && shard % total == index && shard / total == k
  {
    DivMod(index + k * total, total, k, index);
    MulMonotone(k, count, total);
  }

  lemma OwnIsDealt(total: nat, count: nat, shard: nat)
    requires total > 0 && shard < count * total
    ensures shard / total < count
    ensures shard == shard % total + (shard / total) * total
  {
    var k := shard / total;
    assert shard == k * total + shard % total;
    if count < k {
      MulMonotone(count, k, total);
    }
  }

  lemma DealtShard(total: nat, count: nat, index: nat, shard: int)
    requires total > 0 && index < total && shard in Dealt(index, total, count)
    ensures 0 <= shard < count * total && shard % total == index
  {
    var dealt := Dealt(index, total, count);
    var k :| 0 <= k < |dealt| && dealt[k] == shard;
    DealtIsOwn(total, count, index, k);
  }

  lemma OwnShard(total: nat, count: nat, shard: nat)
    requires total > 0 && shard < count * total
    ensures shard / total < count && Dealt(shard % total, total, count)[shard / total] == shard
  {
    OwnIsDealt(total, count, shard);
  }

  /** Each shard is dealt to exactly one cluster: the one its remainder names, at
      the position its quotient names. */
  lemma ShardsArePartitioned(total: nat, numShards: nat, index: nat, shard: int)
    requires total > 0 && numShards % total == 0 && index < total
    ensures shard in Dealt(index, total, numShards / total) <==> 0 <= shard < numShards && shard % total == index
    ensures 0 <= shard < numShards ==>
              && shard / total < numShards / total
              && Dealt(shard % total, total, numShards / total)[shard / total] == shard
  {
    var count := numShards / total;
    assert numShards == count * total;
    if shard in Dealt(index, total, count) {
      DealtShard(total, count, index, shard);
    }
    if 0 <= shard < numShards {
      OwnShard(total, count, shard);
    }
  }

  /** No cluster lists a shard twice. */
  lemma DealtIncreases(index: nat, total: nat, count: nat, i: nat, j: nat)
    requires total > 0 && i < j < count
    ensures Dealt(index, total, count)[i] < Dealt(index, total, count)[j]
  {
    MulMonotone(i, j, total);
  }
}
