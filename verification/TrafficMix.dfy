/**
 The weighted traffic mix and the batches of the v1/v2 benchmark (buildBatches and
 pickTrafficMixEntry in cmd/uptime-bench-veriflier-bench/main.go).
 */
module TrafficMix {
  import opened Arith
  import opened Seqs

  datatype Entry = Entry(method_: string, profile: string, bodyMax: int, weight: int)

  datatype Check = Check(blogID: int, url: string, method_: string, profile: string, bodyMax: int)

  ghost predicate WeightsOk(mix: seq<Entry>) {
    forall i :: 0 <= i < |mix| ==> mix[i].weight >= 0
  }

  // The weight of the first k entries.
  function Prefix(mix: seq<Entry>, k: nat): int
    requires k <= |mix|
  {
    if k == 0 then 0 else Prefix(mix, k - 1) + mix[k - 1].weight
  }

  function TotalWeight(mix: seq<Entry>): int {
    Prefix(mix, |mix|)
  }

  lemma {:induction false} PrefixGrows(mix: seq<Entry>, j: nat, k: nat)
    requires WeightsOk(mix) && j <= k <= |mix|
    ensures 0 <= Prefix(mix, j) <= Prefix(mix, k)
  {
    if j < k {
      PrefixGrows(mix, j, k - 1);
    } else if k > 0 {
      PrefixGrows(mix, k - 1, k - 1);
    }
  }

  // Entry k owns the residues from the weight before it up to the weight with it.
  ghost predicate Owns(mix: seq<Entry>, k: nat, residue: int)
    requires k < |mix|
  {
    Prefix(mix, k) <= residue < Prefix(mix, k + 1)
  }

  // The entry for check idx: the owner of idx modulo the total weight.
  method PickTrafficMixEntry(mix: seq<Entry>, totalWeight: int, idx: nat) returns (entry: Entry, ghost k: nat)
    requires mix != [] && totalWeight == TotalWeight(mix) && WeightsOk(mix)
    ensures k < |mix| && entry == mix[k]
    ensures totalWeight > 0 ==> Owns(mix, k, idx % totalWeight)
    ensures totalWeight > 0 ==> forall j :: 0 <= j < |mix| && Owns(mix, j, idx % totalWeight) ==> entry == mix[j]
    ensures totalWeight <= 0 ==> k == 0 && entry == mix[0]
  {
    if totalWeight <= 0 {
      return mix[0], 0;
    }
    // The fallback, in case the loop finds no owner; it always does.
    entry, k := mix[|mix| - 1], |mix| - 1;
    var offset := idx % totalWeight;
    for i := 0 to |mix|
      invariant offset == idx % totalWeight - Prefix(mix, i) && offset >= 0
    {
      if offset < mix[i].weight {
        forall j | 0 <= j < |mix| && Owns(mix, j, idx % totalWeight)
          ensures j == i
        {
          OwnerUnique(mix, i, j, idx % totalWeight);
        }
        return mix[i], i;
      }
      offset := offset - mix[i].weight;
    }
    assert false;
  }

  lemma OwnerUnique(mix: seq<Entry>, j: nat, k: nat, residue: int)
    requires WeightsOk(mix) && j < |mix| && k < |mix| && Owns(mix, j, residue) && Owns(mix, k, residue)
    ensures j == k
  {
    if j < k {
      PrefixGrows(mix, j + 1, k);
    } else if k < j {
      PrefixGrows(mix, k + 1, j);
    }
  }

  // ----- how often an entry is chosen -----------------------------------------------------------

  // Among the n checks from idx on, those that entry k is chosen for.
  ghost function Chosen(mix: seq<Entry>, k: nat, idx: nat, n: nat): nat
    requires k < |mix| && TotalWeight(mix) > 0
  {
    if n == 0 then 0
    else Chosen(mix, k, idx, n - 1) + if Owns(mix, k, (idx + n - 1) % TotalWeight(mix)) then 1 else 0
  }

  function Clamp(x: int, lo: int, hi: int): int {
    if x < lo then lo else if x > hi then hi else x
  }

  // Below r residues, entry k owns this many.
  function Share(mix: seq<Entry>, k: nat, r: int): int
    requires k < |mix|
  {
    Clamp(r - Prefix(mix, k), 0, mix[k].weight)
  }

  lemma ModSplit(n: nat, w: nat)
    requires w > 0
    ensures n == (n / w) * w + n % w && 0 <= n % w < w
    ensures n % w + 1 < w ==> (n + 1) / w == n / w && (n + 1) % w == n % w + 1
    ensures n % w + 1 == w ==> (n + 1) / w == n / w + 1 && (n + 1) % w == 0
  {
    var q, r := n / w, n % w;
    if r + 1 < w {
      DivModUnique(n + 1, w, q, r + 1);
    } else {
      assert (q + 1) * w == q * w + w;
      DivModUnique(n + 1, w, q + 1, 0);
    }
  }

  lemma DivModUnique(n: nat, w: nat, q: nat, r: nat)
    requires w > 0 && n == q * w + r && r < w
    ensures n / w == q && n % w == r
  {
    DivLower(n, w, q);
    assert (q + 1) * w == q * w + w;
    var p := n / w;
    assert p * w <= n;
    if p > q {
      MulStep(q, p, w);
    }
  }

  // In the first n checks entry k is chosen exactly as often as its weight and the number
  // of full rounds say, plus its share of the last, unfinished round.
  lemma {:induction false} ChosenExactly(mix: seq<Entry>, k: nat, n: nat)
    requires WeightsOk(mix) && k < |mix| && TotalWeight(mix) > 0
    ensures var w := TotalWeight(mix); Chosen(mix, k, 0, n) == (n / w) * mix[k].weight + Share(mix, k, n % w)
  {
    var w := TotalWeight(mix);
    PrefixGrows(mix, k + 1, |mix|);
    PrefixGrows(mix, k, k);
    if n > 0 {
      ChosenExactly(mix, k, n - 1);
      ModSplit(n - 1, w);
      var q := (n - 1) / w;
      assert (q + 1) * mix[k].weight == q * mix[k].weight + mix[k].weight;
    } else {
      assert 0 / w == 0 && 0 % w == 0 && 0 * mix[k].weight == 0;
    }
  }

  lemma {:induction false} ChosenFrom(mix: seq<Entry>, k: nat, idx: nat, n: nat)
    requires k < |mix| && TotalWeight(mix) > 0
    ensures Chosen(mix, k, idx, n) == Chosen(mix, k, 0, idx + n) - Chosen(mix, k, 0, idx)
  {
    if n > 0 {
      ChosenFrom(mix, k, idx, n - 1);
    }
  }

  lemma NextRound(idx: nat, w: nat)
    requires w > 0
    ensures (idx + w) / w == idx / w + 1 && (idx + w) % w == idx % w
  {
    ModSplit(idx, w);
    var q := idx / w;
    MulPred(q + 1, w);
    DivModUnique(idx + w, w, q + 1, idx % w);
  }

  // Any run of consecutive checks as long as the total weight hits each entry exactly its
  // weight, wherever it starts.
  lemma FullRoundIsFair(mix: seq<Entry>, k: nat, idx: nat)
    requires WeightsOk(mix) && k < |mix| && TotalWeight(mix) > 0
    ensures Chosen(mix, k, idx, TotalWeight(mix)) == mix[k].weight
  {
    var w := TotalWeight(mix);
    ChosenFrom(mix, k, idx, w);
    ChosenExactly(mix, k, idx);
    ChosenExactly(mix, k, idx + w);
    NextRound(idx, w);
    MulPred(idx / w + 1, mix[k].weight);
  }

  // ----- building the batches ---------------------------------------------------------------------

  method BuildBatches(total: nat, batchSize: int, url: string, baseID: int, defaults: Entry, trafficMix: seq<Entry>)
    returns (batches: seq<seq<Check>>, ghost picks: seq<nat>)
    requires batchSize > 0 && WeightsOk(trafficMix)
    // The batches cut the checks 0, 1, ... in order, all of them full except perhaps the last.
    ensures |Flatten(batches)| == total == |picks|
    ensures forall i :: 0 <= i < |batches| ==> 0 < |batches[i]| <= batchSize
    ensures forall i :: 0 <= i < |batches| - 1 ==> |batches[i]| == batchSize
    // Check i has the next ID and the entry that owns i; an empty mix is one default entry.
    ensures var mix := if trafficMix == [] then [defaults.(weight := 1)] else trafficMix;
            forall i :: 0 <= i < total ==>
              picks[i] < |mix| && (TotalWeight(mix) > 0 ==> Owns(mix, picks[i], i % TotalWeight(mix)))
              && Flatten(batches)[i]
                 == Check(baseID + i, url, mix[picks[i]].method_, mix[picks[i]].profile, mix[picks[i]].bodyMax)
  {
    var mix := if |trafficMix| == 0 then [defaults.(weight := 1)] else trafficMix;
    var totalWeight := 0;
    for i := 0 to |mix|
      invariant totalWeight == Prefix(mix, i)
    {
      totalWeight := totalWeight + mix[i].weight;
    }
    var checks: seq<Check> := [];
    picks := [];
    for i := 0 to total
      invariant |checks| == |picks| == i
      invariant forall j :: 0 <= j < i ==>
        picks[j] < |mix| && (totalWeight > 0 ==> Owns(mix, picks[j], j % totalWeight))
        && checks[j] == Check(baseID + j, url, mix[picks[j]].method_, mix[picks[j]].profile, mix[picks[j]].bodyMax)
    {
      var entry, k := PickTrafficMixEntry(mix, totalWeight, i);
      checks := checks + [Check(baseID + i, url, entry.method_, entry.profile, entry.bodyMax)];
      picks := picks + [k];
    }
    batches := MakeBatches(checks, batchSize);
  }

  method MakeBatches(checks: seq<Check>, batchSize: int) returns (batches: seq<seq<Check>>)
    requires batchSize > 0
    ensures Flatten(batches) == checks
    ensures forall i :: 0 <= i < |batches| ==> 0 < |batches[i]| <= batchSize
    ensures forall i :: 0 <= i < |batches| - 1 ==> |batches[i]| == batchSize
  {
    batches := [];
    var rest := checks;
    while |rest| > 0
      invariant Flatten(batches) + rest == checks
      invariant forall i :: 0 <= i < |batches| ==> 0 < |batches[i]| <= batchSize
      invariant forall i :: 0 <= i < |batches| && (rest != [] || i < |batches| - 1) ==> |batches[i]| == batchSize
      decreases |rest|
    {
      var n := batchSize;
      if n > |rest| {
        n := |rest|;
      }
      FlattenSnoc(batches, rest[..n]);
      assert rest == rest[..n] + rest[n..];
      Assoc(Flatten(batches), rest[..n], rest[n..]);
      batches := batches + [rest[..n]];
      rest := rest[n..];
    }
  }
}
