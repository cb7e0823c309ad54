/**
 * The arithmetic of `selectRunner` in internal/qrunner/coordinator/balancer.go: a draw reduced
 * modulo the total weight is walked down the runners in the order the map iteration gives.
 */
module WeightedChoice {
  import opened Options

  type Weights = map<string, nat>

  /** One iteration order of a Go map: every key once. */
  ghost predicate IsOrder(order: seq<string>, keys: set<string>) {
    && |order| == |keys|
    && (forall i, j :: 0 <= i < j < |order| ==> order[i] != order[j])
    && (forall k :: k in order <==> k in keys)
  }

  function Total(order: seq<string>, weights: Weights): nat
    requires forall k <- order :: k in weights
  {
    if order == [] then 0 else weights[order[0]] + Total(order[1..], weights)
  }

  /** The second loop: the first runner whose weight exceeds what is left of the draw. */
  function Pick(order: seq<string>, weights: Weights, rnd: nat): Option<string>
    requires forall k <- order :: k in weights
  {
    if order == [] then None
    else if rnd < weights[order[0]] then Some(order[0])
    else Pick(order[1..], weights, rnd - weights[order[0]])
  }

  // ---------------------------------------------------------------------------------------
  // The total does not depend on the order
  // ---------------------------------------------------------------------------------------

  lemma {:induction false} TotalConcat(a: seq<string>, b: seq<string>, weights: Weights)
    requires forall k <- a + b :: k in weights
    ensures (forall k <- a :: k in weights) && (forall k <- b :: k in weights)
    ensures Total(a + b, weights) == Total(a, weights) + Total(b, weights)
  {
    assert (forall k <- a :: k in a + b) && (forall k <- b :: k in a + b);
    if a == [] {
      assert a + b == b;
    } else {
      assert (a + b)[1..] == a[1..] + b;
      TotalConcat(a[1..], b, weights);
    }
  }

  /** An order of the keys without the one at place `i` is an order of the others. */
  lemma OrderWithout(order: seq<string>, keys: set<string>, i: nat)
    requires IsOrder(order, keys) && i < |order|
    ensures IsOrder(order[..i] + order[i + 1..], keys - {order[i]})
  {
    var rest := order[..i] + order[i + 1..];
    assert forall j :: 0 <= j < |rest| ==> rest[j] == order[if j < i then j else j + 1];
    forall k | k in keys - {order[i]}
      ensures k in rest
    {
      assert k in order;
      var j :| 0 <= j < |order| && order[j] == k;
      assert rest[if j < i then j else j - 1] == k;
    }
  }

  /** Without the runner at place `i`. */
  lemma TotalWithout(order: seq<string>, keys: set<string>, weights: Weights, i: nat)
    requires IsOrder(order, keys) && keys <= weights.Keys && i < |order|
    ensures IsOrder(order[..i] + order[i + 1..], keys - {order[i]})
    ensures Total(order, weights) == weights[order[i]] + Total(order[..i] + order[i + 1..], weights)
  {
    OrderWithout(order, keys, i);
    hide IsOrder;
    var before, here, after := order[..i], [order[i]], order[i + 1..];
    assert order == before + (here + after);
    TotalConcat(before, here + after, weights);
    assert (here + after)[1..] == after;
    TotalConcat(before, after, weights);
  }

  lemma {:induction false} TotalIsOrderFree(a: seq<string>, b: seq<string>, keys: set<string>, weights: Weights)
    requires IsOrder(a, keys) && IsOrder(b, keys) && keys <= weights.Keys
    ensures Total(a, weights) == Total(b, weights)
    decreases |a|
  {
    if a == [] {
      assert b == [];
    } else {
      assert a[0] in b;
      var i :| 0 <= i < |b| && b[i] == a[0];
      TotalWithout(a, keys, weights, 0);
      TotalWithout(b, keys, weights, i);
      assert a[..0] + a[0 + 1..] == a[1..];
      TotalIsOrderFree(a[1..], b[..i] + b[i + 1..], keys - {a[0]}, weights);
    }
  }

  // ---------------------------------------------------------------------------------------
  // Which residues pick a runner
  // ---------------------------------------------------------------------------------------

  /** The residues that pick runner `r` are an interval as long as its weight. */
  lemma {:induction false} PickIsInterval(order: seq<string>, keys: set<string>, weights: Weights, r: string)
      returns (start: nat)
    requires IsOrder(order, keys) && keys <= weights.Keys && r in keys
    ensures start + weights[r] <= Total(order, weights)
    ensures forall rnd: nat :: Pick(order, weights, rnd) == Some(r) <==> start <= rnd < start + weights[r]
  {
    assert r in order;
    TotalWithout(order, keys, weights, 0);
    assert order[..0] + order[0 + 1..] == order[1..];
    if order[0] == r {
      start := 0;
      forall rnd: nat
        ensures Pick(order, weights, rnd) == Some(r) <==> rnd < weights[r]
      {
        PickIsInOrder(order[1..], weights, if rnd < weights[r] then 0 else rnd - weights[r]);
      }
    } else {
      var tailStart := PickIsInterval(order[1..], keys - {order[0]}, weights, r);
      start := weights[order[0]] + tailStart;
    }
  }

  lemma {:induction false} PickIsInOrder(order: seq<string>, weights: Weights, rnd: nat)
    requires forall k <- order :: k in weights
    ensures Pick(order, weights, rnd).Some? ==> Pick(order, weights, rnd).value in order
  {
    if order != [] && rnd >= weights[order[0]] {
      PickIsInOrder(order[1..], weights, rnd - weights[order[0]]);
    }
  }

  /** A draw below the total never falls through to nil. */
  lemma {:induction false} PickNeverFallsThrough(order: seq<string>, weights: Weights, rnd: nat)
    requires forall k <- order :: k in weights
    ensures rnd < Total(order, weights) <==> Pick(order, weights, rnd).Some?
    ensures Pick(order, weights, rnd).Some? ==>
              Pick(order, weights, rnd).value in order && weights[Pick(order, weights, rnd).value] > 0
  {
    if order != [] && rnd >= weights[order[0]] {
      PickNeverFallsThrough(order[1..], weights, rnd - weights[order[0]]);
    }
  }

  // ---------------------------------------------------------------------------------------
  // How many 64-bit draws pick a runner
  // ---------------------------------------------------------------------------------------

  /** How many of the draws below `n` pick `r`. */
  ghost function Hits(order: seq<string>, weights: Weights, r: string, n: nat): nat
    requires forall k <- order :: k in weights
    requires Total(order, weights) > 0
  {
    if n == 0 then 0
    else Hits(order, weights, r, n - 1) + Hit(order, weights, r, n - 1)
  }

  ghost function Hit(order: seq<string>, weights: Weights, r: string, draw: nat): nat
    requires forall k <- order :: k in weights
    requires Total(order, weights) > 0
  {
    if Pick(order, weights, draw % Total(order, weights)) == Some(r) then 1 else 0
  }

  /** Below the total, the hits fill the interval of `r` from its start on. */
  lemma {:induction false} HitsBelowTotal(order: seq<string>, weights: Weights, r: string, start: nat, n: nat)
    requires forall k <- order :: k in weights
    requires r in weights && n <= Total(order, weights) && Total(order, weights) > 0
    requires forall rnd: nat :: Pick(order, weights, rnd) == Some(r) <==> start <= rnd < start + weights[r]
    ensures Hits(order, weights, r, n)
         == if n <= start then 0 else if n <= start + weights[r] then n - start else weights[r]
  {
    if n > 0 {
      hide Pick, Total;
      HitsBelowTotal(order, weights, r, start, n - 1);
      SmallModulo(n - 1, Total(order, weights));
    }
  }

  lemma SmallModulo(n: nat, total: nat)
    requires n < total
    ensures n % total == n
  {
  }

  /** Every further round of the total adds exactly the weight of `r`. */
  lemma {:induction false} HitsPerRound(order: seq<string>, keys: set<string>, weights: Weights, r: string, n: nat)
    requires IsOrder(order, keys) && keys <= weights.Keys && r in keys && Total(order, weights) > 0
    ensures Hits(order, weights, r, n + Total(order, weights)) == Hits(order, weights, r, n) + weights[r]
  {
    var total := Total(order, weights);
    if n == 0 {
      var start := PickIsInterval(order, keys, weights, r);
      HitsBelowTotal(order, weights, r, start, total);
    } else {
      HitsPerRound(order, keys, weights, r, n - 1);
      ModPlusTotal(n - 1, total);
    }
  }

  lemma ModPlusTotal(n: nat, total: nat)
    requires total > 0
    ensures (n + total) % total == n % total
  {
    var q, m := n / total, n % total;
    var q', m' := (n + total) / total, (n + total) % total;
    MultipleAwayFromZero(q' - q - 1, total);
    assert (q' - q - 1) * total == m - m' by {
      assert q * total + m + total == q' * total + m';
      assert (q' - q - 1) * total == q' * total - q * total - total;
    }
  }

  /** A multiple of `total` strictly between -total and total is zero. */
  lemma MultipleAwayFromZero(k: int, total: nat)
    requires total > 0
    ensures k >= 1 ==> k * total >= total
    ensures k <= -1 ==> k * total + total <= 0
  {
    if k >= 1 { assert (k - 1) * total >= 0; }
    if k <= -1 { assert (-k - 1) * total >= 0; }
  }

  lemma OneRoundMore(q: nat, w: nat)
    requires q > 0
    ensures q * w == (q - 1) * w + w
  {
  }

  lemma {:induction false} HitsInRounds(order: seq<string>, keys: set<string>, weights: Weights, r: string, q: nat,
                                        m: nat)
    requires IsOrder(order, keys) && keys <= weights.Keys && r in keys && Total(order, weights) > 0
    ensures Hits(order, weights, r, q * Total(order, weights) + m) == q * weights[r] + Hits(order, weights, r, m)
  {
    var total := Total(order, weights);
    if q > 0 {
      hide Hits, Total, Pick;
      HitsInRounds(order, keys, weights, r, q - 1, m);
      HitsPerRound(order, keys, weights, r, (q - 1) * total + m);
      OneRoundMore(q, total);
      OneRoundMore(q, weights[r]);
    }
  }

  /** Exactly the weight of `r` many residues pick it. */
  lemma ResiduesPerRunner(order: seq<string>, keys: set<string>, weights: Weights, r: string)
    requires IsOrder(order, keys) && keys <= weights.Keys && r in keys && Total(order, weights) > 0
    ensures Hits(order, weights, r, Total(order, weights)) == weights[r]
  {
    HitsPerRound(order, keys, weights, r, 0);
  }

  /** A round that is cut short gives `r` at most its weight. */
  lemma HitsInPartOfRound(order: seq<string>, keys: set<string>, weights: Weights, r: string, m: nat)
    requires IsOrder(order, keys) && keys <= weights.Keys && r in keys && m < Total(order, weights)
    ensures Hits(order, weights, r, m) <= weights[r]
  {
    var start := PickIsInterval(order, keys, weights, r);
    HitsBelowTotal(order, weights, r, start, m);
  }

  /**
   * Any number of draws, say all 2^64 of them, is some whole rounds of the total and a rest. The
   * share of `r` is its weight times the number of whole rounds, or one round more if there is a
   * rest: the bias of the modulo is at most that.
   */
  lemma DrawsPerRunner(order: seq<string>, keys: set<string>, weights: Weights, r: string, rounds: nat, rest: nat)
    requires IsOrder(order, keys) && keys <= weights.Keys && r in keys && rest < Total(order, weights)
    ensures rounds * weights[r]
         <= Hits(order, weights, r, rounds * Total(order, weights) + rest)
         <= (if rest == 0 then rounds else rounds + 1) * weights[r]
  {
    HitsInRounds(order, keys, weights, r, rounds, rest);
    HitsInPartOfRound(order, keys, weights, r, rest);
    WholeRounds(rounds, weights[r]);
  }

  lemma WholeRounds(q: nat, w: nat)
    ensures (q + 1) * w == q * w + w
  {
  }
}
