/** Sampling an index with a probability proportional to its weight, from prefix sums of the weights. */
module WeightedIndex {
  import opened Common

  function Sum(w: seq<nat>): nat {
    if w == [] then 0 else Sum(w[..|w| - 1]) + w[|w| - 1]
  }

  lemma {:induction false} SumMonotone(w: seq<nat>, i: nat, j: nat)
    requires i <= j <= |w|
    ensures Sum(w[..i]) <= Sum(w[..j])
    decreases j
  {
    if i < j {
      SumMonotone(w, i, j - 1);
      assert w[..j][..j - 1] == w[..j - 1];
    }
  }

  lemma SumPositive(w: seq<nat>, i: nat)
    requires i < |w| && w[i] > 0
    ensures Sum(w) > 0
  {
    SumMonotone(w, i + 1, |w|);
    assert w[..i + 1][..i] == w[..i];
    assert w[..|w|] == w;
  }

  lemma {:induction false} SumZero(w: seq<nat>)
    requires Sum(w) == 0
    ensures forall i :: 0 <= i < |w| ==> w[i] == 0
  {
    if w != [] {
      SumZero(w[..|w| - 1]);
    }
  }

  lemma {:induction false} SumUpdated(w: seq<nat>, i: nat, x: nat, k: nat)
    requires i < |w| && k <= |w|
    ensures Sum(w[i := x][..k]) == Sum(w[..k]) + if i < k then x - w[i] else 0
    decreases k
  {
    if k > 0 {
      SumUpdated(w, i, x, k - 1);
      assert w[i := x][..k][..k - 1] == w[i := x][..k - 1];
      assert w[..k][..k - 1] == w[..k - 1];
    }
  }

  lemma {:induction false} ZeroSum(w: seq<nat>)
    requires forall i :: 0 <= i < |w| ==> w[i] == 0
    ensures Sum(w) == 0
  {
    if w != [] {
      ZeroSum(w[..|w| - 1]);
    }
  }

  lemma TotalUpdated(w: seq<nat>, i: nat, x: nat)
    requires i < |w|
    ensures Sum(w[i := x]) == Sum(w) + x - w[i]
  {
    SumUpdated(w, i, x, |w|);
    assert w[i := x][..|w|] == w[i := x] && w[..|w|] == w;
  }

  lemma SumOneMore(w: seq<nat>, index: nat)
    requires index < |w|
    ensures Sum(w[..index + 1]) == Sum(w[..index]) + w[index]
  {
    assert w[..index + 1][..index] == w[..index];
  }

  lemma SomePositive(w: seq<nat>, index: nat, weight: nat)
    requires index < |w|
    ensures Sum(w[index := weight]) > 0 <==> weight > 0 || exists i :: 0 <= i < |w| && i != index && w[i] > 0
  {
    var updated := w[index := weight];
    if weight > 0 {
      SumPositive(updated, index);
    } else if i :| 0 <= i < |w| && i != index && w[i] > 0 {
      SumPositive(updated, i);
    } else {
      assert forall i :: 0 <= i < |w| && i != index ==> updated[i] == w[i];
      ZeroSum(updated);
    }
  }

  function Range(n: nat): (r: set<nat>)
    ensures |r| == n && forall k: nat :: k in r <==> k < n
  {
    if n == 0 then {} else Range(n - 1) + {n - 1}
  }

  function Elements(s: seq<nat>): (e: set<nat>)
    ensures |e| <= |s| && forall k: nat :: k in e <==> k in s
  {
    if s == [] then {}
    else
      assert s == s[..|s| - 1] + [s[|s| - 1]];
      Elements(s[..|s| - 1]) + {s[|s| - 1]}
  }

  /** Fewer than `n` picks leave an index below `n` out. */
  lemma OneLeft(picks: seq<nat>, n: nat) returns (left: nat)
    requires |picks| < n
    ensures left < n && left !in picks
  {
    var free := Range(n) - Elements(picks);
    if free == {} {
      SubsetSize(Range(n), Elements(picks));
    }
    left := AnyElement(free);
  }

  // ---------------------------------------------------------------- outcomes of drawing

  /** The draw falls into the share of the total that belongs to index `i`. */
  ghost predicate Hits(w: seq<nat>, draw: nat, i: nat) {
    i < |w| && Sum(w[..i]) <= draw < Sum(w[..i + 1])
  }

  /** The draws pick these indexes, each being taken out by setting its weight to zero. */
  ghost predicate IsOutcome(w: seq<nat>, picks: seq<nat>, draws: seq<nat>)
    decreases |picks|
  {
    && |draws| == |picks|
    && (picks != [] ==> Hits(w, draws[0], picks[0]) && IsOutcome(w[picks[0] := 0], picks[1..], draws[1..]))
  }

  /** Where numbers come from: a draw below some total is the next number modulo that total. */
  type Random = nat -> nat

  /** The draws are those that `random` gives for the totals left by the earlier picks. */
  ghost predicate IsRandom(w: seq<nat>, picks: seq<nat>, draws: seq<nat>, random: Random) {
    && |draws| == |picks|
    && forall i :: 0 <= i < |draws| ==>
                     var total := Sum(Zeroed(w, picks[..i]));
                     total > 0 && draws[i] == random(i) % total
  }

  ghost predicate CanBePicked(w: seq<nat>, picks: seq<nat>) {
    exists draws :: IsOutcome(w, picks, draws)
  }

  ghost predicate AreDrawable(w: seq<nat>, picks: seq<nat>) {
    Distinct(picks) && forall p :: p in picks ==> p < |w| && w[p] > 0
  }

  function Zeroed(w: seq<nat>, picks: seq<nat>): (z: seq<nat>)
    ensures |z| == |w| && forall k :: 0 <= k < |w| ==> z[k] == if k in picks then 0 else w[k]
  {
    seq(|w|, k requires 0 <= k < |w| => if k in picks then 0 else w[k])
  }

  lemma ZeroedOneMore(w: seq<nat>, picks: seq<nat>, pick: nat)
    requires pick < |w|
    ensures Zeroed(w, picks + [pick]) == Zeroed(w, picks)[pick := 0]
  {
  }

  lemma {:induction false} OutcomeOneMore(w: seq<nat>, picks: seq<nat>, draws: seq<nat>, pick: nat, draw: nat)
    requires IsOutcome(w, picks, draws) && Hits(Zeroed(w, picks), draw, pick)
    ensures IsOutcome(w, picks + [pick], draws + [draw])
    decreases |picks|
  {
    if picks == [] {
      assert Zeroed(w, picks) == w;
      assert [pick][1..] == [] && [draw][1..] == [];
    } else {
      var w' := w[picks[0] := 0];
      assert Zeroed(w, picks) == Zeroed(w', picks[1..]) by {
        assert picks == [picks[0]] + picks[1..];
      }
      OutcomeOneMore(w', picks[1..], draws[1..], pick, draw);
      assert (picks + [pick])[1..] == picks[1..] + [pick] && (draws + [draw])[1..] == draws[1..] + [draw];
    }
  }

  lemma HitsPositive(w: seq<nat>, draw: nat, i: nat)
    requires Hits(w, draw, i)
    ensures w[i] > 0
  {
    SumOneMore(w, i);
  }

  lemma {:induction false} OutcomesAreDistinct(w: seq<nat>, picks: seq<nat>, draws: seq<nat>)
    requires IsOutcome(w, picks, draws)
    ensures AreDrawable(w, picks)
    decreases |picks|
  {
    if picks != [] {
      HitsPositive(w, draws[0], picks[0]);
      OutcomesAreDistinct(w[picks[0] := 0], picks[1..], draws[1..]);
      assert forall i :: 1 <= i < |picks| ==> picks[i] == picks[1..][i - 1] && picks[i] in picks[1..];
    }
  }

  lemma {:induction false} DistinctIsAnOutcome(w: seq<nat>, picks: seq<nat>) returns (draws: seq<nat>)
    requires AreDrawable(w, picks)
    ensures IsOutcome(w, picks, draws)
    decreases |picks|
  {
    if picks == [] {
      draws := [];
    } else {
      var rest := picks[1..];
      assert picks[0] in picks;
      assert forall i :: 0 <= i < |rest| ==> rest[i] == picks[i + 1] && rest[i] in picks;
      var later := DistinctIsAnOutcome(w[picks[0] := 0], rest);
      SumOneMore(w, picks[0]);
      draws := [Sum(w[..picks[0]])] + later;
      assert draws[1..] == later;
    }
  }

  /** What drawing may pick: exactly the sequences of distinct indexes of positive weight. */
  lemma OutcomesExactly(w: seq<nat>, picks: seq<nat>)
    ensures CanBePicked(w, picks) <==> AreDrawable(w, picks)
  {
    if CanBePicked(w, picks) {
      var draws :| IsOutcome(w, picks, draws);
      OutcomesAreDistinct(w, picks, draws);
    }
    if AreDrawable(w, picks) {
      var draws := DistinctIsAnOutcome(w, picks);
    }
  }

  class WeightedIndex {
    ghost var weights: seq<nat>
    /** Prefix sums; the last one is `total`. */
    var cumulative: seq<nat>
    var total: nat

    ghost predicate Valid()
      reads this
    {
      && |weights| == |cumulative| + 1
      && (forall i :: 0 <= i < |cumulative| ==> cumulative[i] == Sum(weights[..i + 1]))
      && total == Sum(weights)
      && total > 0
    }

    /** `null` stands for the error: no weights, or none above zero. */
    static method Build(weights: seq<nat>) returns (dist: WeightedIndex?)
      ensures dist == null <==> forall i :: 0 <= i < |weights| ==> weights[i] == 0
      ensures dist != null ==> fresh(dist) && dist.Valid() && dist.weights == weights
    {
      var sums: seq<nat> := [];
      var total := 0;
      for i := 0 to |weights|
        invariant |sums| == i && total == Sum(weights[..i])
        invariant forall j :: 0 <= j < i ==> sums[j] == Sum(weights[..j + 1])
      {
        assert weights[..i + 1][..i] == weights[..i];
        total := total + weights[i];
        sums := sums + [total];
      }
      assert weights[..|weights|] == weights;
      if total == 0 {
        SumZero(weights);
        return null;
      }
      if forall i :: 0 <= i < |weights| ==> weights[i] == 0 {
        ZeroSum(weights);
      }
      dist := new WeightedIndex.Of(sums[..|sums| - 1], total, weights);
    }

    constructor Of(cumulative: seq<nat>, total: nat, ghost weights: seq<nat>)
      requires |weights| == |cumulative| + 1 && total == Sum(weights) > 0
      requires forall i :: 0 <= i < |cumulative| ==> cumulative[i] == Sum(weights[..i + 1])
      ensures Valid() && this.weights == weights
    {
      this.cumulative := cumulative;
      this.total := total;
      this.weights := weights;
    }

    /** A number below the total is drawn; the index is the one whose share of the total it falls into. */
    method Sample(random: nat) returns (index: nat)
      requires Valid()
      ensures Hits(weights, random % Sum(weights), index)
      ensures weights[index] > 0
    {
      var chosen := random % total;
      var lo, hi := 0, |cumulative|;
      while lo < hi
        invariant 0 <= lo <= hi <= |cumulative|
        invariant Sum(weights[..lo]) <= chosen
        invariant hi < |cumulative| ==> chosen < cumulative[hi]
      {
        var mid := (lo + hi) / 2;
        if cumulative[mid] <= chosen {
          lo := mid + 1;
        } else {
          hi := mid;
        }
      }
      index := lo;
      assert weights[..|weights|] == weights;
      assert weights[..index + 1][..index] == weights[..index];
    }

    static method ShiftedSums(cumulative: seq<nat>, ghost w: seq<nat>, index: nat, previous: nat, weight: nat)
      returns (sums: seq<nat>)
      requires |w| == |cumulative| + 1 && index < |w| && previous == w[index]
      requires forall k :: 0 <= k < |cumulative| ==> cumulative[k] == Sum(w[..k + 1])
      ensures |sums| == |cumulative|
      ensures forall k :: 0 <= k < |sums| ==> sums[k] == Sum(w[index := weight][..k + 1])
    {
      sums := cumulative;
      for j := 0 to |sums|
        invariant |sums| == |cumulative|
        invariant forall k :: 0 <= k < j ==> sums[k] == Sum(w[index := weight][..k + 1])
        invariant forall k :: j <= k < |sums| ==> sums[k] == cumulative[k]
      {
        SumUpdated(w, index, weight, j + 1);
        if j >= index {
          SumOneMore(w, index);
          SumMonotone(w, index + 1, j + 1);
          sums := sums[j := sums[j] - previous + weight];
        }
      }
    }

    /** Changes one weight in place; refused if no weight would be left. */
    method UpdateWeight(index: nat, weight: nat) returns (ok: bool)
      requires Valid() && index < |weights|
      modifies this
      ensures Valid()
      ensures ok <==> weight > 0 || exists i :: 0 <= i < |old(weights)| && i != index && old(weights)[i] > 0
      ensures weights == if ok then old(weights)[index := weight] else old(weights)
    {
      var previous := if index < |cumulative| then cumulative[index] else total;
      if index > 0 {
        previous := previous - cumulative[index - 1];
      }
      assert previous == weights[index] by {
        SumOneMore(weights, index);
        assert weights[..|weights|] == weights;
      }
      ghost var before, updated := weights, weights[index := weight];
      TotalUpdated(before, index, weight);
      SomePositive(before, index, weight);
      var newTotal := total - previous + weight;
      if newTotal == 0 {
        return false;
      }
      var sums := ShiftedSums(cumulative, before, index, previous, weight);
      cumulative, total, weights := sums, newTotal, updated;
      return true;
    }
  }

  lemma RandomOneMore(w: seq<nat>, picks: seq<nat>, draws: seq<nat>, random: Random, pick: nat, draw: nat)
    requires IsRandom(w, picks, draws, random)
    requires Sum(Zeroed(w, picks)) > 0 && draw == random(|picks|) % Sum(Zeroed(w, picks))
    ensures IsRandom(w, picks + [pick], draws + [draw], random)
  {
    var picks', draws' := picks + [pick], draws + [draw];
    forall i | 0 <= i < |draws'|
      ensures Sum(Zeroed(w, picks'[..i])) > 0 && draws'[i] == random(i) % Sum(Zeroed(w, picks'[..i]))
    {
      if i < |draws| {
        assert picks'[..i] == picks[..i];
      } else {
        assert picks'[..i] == picks;
      }
    }
  }

  /** A draw hits one index only. */
  lemma HitsOne(w: seq<nat>, draw: nat, i: nat, j: nat)
    requires Hits(w, draw, i) && Hits(w, draw, j)
    ensures i == j
  {
    if i < j {
      SumMonotone(w, i + 1, j);
    } else if j < i {
      SumMonotone(w, j + 1, i);
    }
  }

  /** The `i`-th draw of an outcome hits its pick among the weights that the earlier picks left. */
  lemma {:induction false} OutcomeHits(w: seq<nat>, picks: seq<nat>, draws: seq<nat>, i: nat)
    requires IsOutcome(w, picks, draws) && i < |picks|
    ensures Hits(Zeroed(w, picks[..i]), draws[i], picks[i])
    decreases i
  {
    if i == 0 {
      assert Zeroed(w, picks[..0]) == w;
    } else {
      OutcomeHits(w[picks[0] := 0], picks[1..], draws[1..], i - 1);
      assert picks[..i] == [picks[0]] + picks[1..][..i - 1];
      assert Zeroed(w[picks[0] := 0], picks[1..][..i - 1]) == Zeroed(w, picks[..i]);
    }
  }

  /** Each pick is the index that its random number hits among the weights the earlier picks left. */
  ghost predicate Follows(w: seq<nat>, picks: seq<nat>, random: Random) {
    forall i :: 0 <= i < |picks| ==> PickFollows(w, picks[..i], picks[i], random)
  }

  ghost predicate PickFollows(w: seq<nat>, earlier: seq<nat>, pick: nat, random: Random) {
    var total := Sum(Zeroed(w, earlier));
    total > 0 && Hits(Zeroed(w, earlier), random(|earlier|) % total, pick)
  }

  lemma OutcomeFollows(w: seq<nat>, picks: seq<nat>, draws: seq<nat>, random: Random)
    requires IsOutcome(w, picks, draws) && IsRandom(w, picks, draws, random)
    ensures Follows(w, picks, random)
  {
    forall i | 0 <= i < |picks| ensures PickFollows(w, picks[..i], picks[i], random) {
      OutcomeHits(w, picks, draws, i);
    }
  }

  lemma OnePickFollows(w: seq<nat>, earlier: seq<nat>, p: nat, q: nat, random: Random)
    requires PickFollows(w, earlier, p, random) && PickFollows(w, earlier, q, random)
    ensures p == q
  {
    HitsOne(Zeroed(w, earlier), random(|earlier|) % Sum(Zeroed(w, earlier)), p, q);
  }

  /** If the earlier picks leave one choice at most for the next one, then picks are equal. */
  lemma {:induction false} OneChoiceEach(may: (seq<nat>, nat) -> bool, picks: seq<nat>, picks': seq<nat>, n: nat)
    requires n <= |picks| == |picks'|
    requires forall i :: 0 <= i < |picks| ==> may(picks[..i], picks[i]) && may(picks'[..i], picks'[i])
    requires forall earlier, p, q :: may(earlier, p) && may(earlier, q) ==> p == q
    ensures picks[..n] == picks'[..n]
  {
    if n > 0 {
      var i := n - 1;
      OneChoiceEach(may, picks, picks', i);
      assert may(picks[..i], picks[i]) && may(picks[..i], picks'[i]);
      assert picks[..n] == picks[..i] + [picks[i]] && picks'[..n] == picks'[..i] + [picks'[i]];
    }
  }

  /** The weights and the random numbers determine what is picked. */
  lemma PicksDetermined(w: seq<nat>, picks: seq<nat>, picks': seq<nat>, random: Random)
    requires Follows(w, picks, random) && Follows(w, picks', random) && |picks| == |picks'|
    ensures picks == picks'
  {
    forall earlier, p, q | PickFollows(w, earlier, p, random) && PickFollows(w, earlier, q, random) ensures p == q {
      OnePickFollows(w, earlier, p, q, random);
    }
    OneChoiceEach((earlier: seq<nat>, p: nat) => PickFollows(w, earlier, p, random), picks, picks', |picks|);
    assert picks == picks[..|picks|] && picks' == picks'[..|picks|];
  }

  /** Draws `count` indexes one after the other, taking each drawn one out by setting its weight to zero. */
  method DrawDistinct(dist: WeightedIndex, count: nat, random: Random) returns (picks: seq<nat>, ghost draws: seq<nat>)
    requires dist.Valid() && count <= |dist.weights|
    requires forall i :: 0 <= i < |dist.weights| ==> dist.weights[i] > 0
    modifies dist
    ensures |picks| == count && IsOutcome(old(dist.weights), picks, draws)
    ensures IsRandom(old(dist.weights), picks, draws, random)
  {
    ghost var start := dist.weights;
    picks, draws := [], [];
    assert Zeroed(start, []) == start;
    for i := 0 to count
      invariant dist.Valid()
      invariant |picks| == i && IsOutcome(start, picks, draws) && IsRandom(start, picks, draws, random)
      invariant i < count ==> dist.weights == Zeroed(start, picks)
    {
      var index := dist.Sample(random(i));
      ghost var draw := random(i) % Sum(dist.weights);
      OutcomeOneMore(start, picks, draws, index, draw);
      RandomOneMore(start, picks, draws, random, index, draw);
      picks, draws := picks + [index], draws + [draw];
      if i < count - 1 {
        ZeroedOneMore(start, picks[..i], index);
        assert picks == picks[..i] + [index];
        ghost var left := OneLeft(picks, |start|);
        assert left != index && dist.weights[left] == start[left];
        var ok := dist.UpdateWeight(index, 0);
        assert ok;
      }
    }
  }
}
