/** The train/validation/test split of the (already shuffled) fine-tuning
    rows: three consecutive Python slices at the cut points `n_train` and
    `n_train + n_val`. */
module DatasetSplit {
  import opened Seqs

  datatype Partition<T> = Partition(train: seq<T>, val: seq<T>, test: seq<T>)

  /** `data[:n_train]`, `data[n_train:n_train + n_val]`, `data[n_train + n_val:]`. */
  function SplitAt<T>(data: seq<T>, nTrain: nat, nVal: nat): (p: Partition<T>)
    ensures p.train + p.val + p.test == data
    ensures |p.train| == Min(nTrain, |data|)
    ensures |p.val| == Min(nTrain + nVal, |data|) - Min(nTrain, |data|)
    ensures |p.test| == |data| - Min(nTrain + nVal, |data|)
  {
    var a := Min(nTrain, |data|);
    var b := Min(nTrain + nVal, |data|);
    assert Slice(data, 0, nTrain) == data[..a];
    assert Slice(data, nTrain, nTrain + nVal) == data[a..b];
    assert Slice(data, nTrain + nVal, |data|) == data[b..];
    assert data[..a] + data[a..b] + data[b..] == data;
    Partition(Slice(data, 0, nTrain), Slice(data, nTrain, nTrain + nVal), Slice(data, nTrain + nVal, |data|))
  }

  /** When the cut points fit, train is the first `n_train` rows, val the
      next `n_val`, and test the rest. */
  lemma SplitWithinBounds<T>(data: seq<T>, nTrain: nat, nVal: nat)
    requires nTrain + nVal <= |data|
    ensures SplitAt(data, nTrain, nVal).train == data[..nTrain]
    ensures SplitAt(data, nTrain, nVal).val == data[nTrain..nTrain + nVal]
    ensures SplitAt(data, nTrain, nVal).test == data[nTrain + nVal..]
    ensures |SplitAt(data, nTrain, nVal).test| == |data| - nTrain - nVal
  {
    var p := SplitAt(data, nTrain, nVal);
    assert p.train == data[..|p.train|];
    assert p.train + (p.val + p.test) == data;
    assert (p.train + p.val) + p.test == data;
    assert p.val == data[nTrain..nTrain + nVal];
  }

  /** Every row lands in exactly one part: the parts together hold the same
      rows, with the same multiplicities, as the input. */
  lemma SplitIsPartition<T>(data: seq<T>, nTrain: nat, nVal: nat)
    ensures var p := SplitAt(data, nTrain, nVal);
            multiset(p.train) + multiset(p.val) + multiset(p.test) == multiset(data)
            && |p.train| + |p.val| + |p.test| == |data|
  {
    var p := SplitAt(data, nTrain, nVal);
    assert multiset(p.train + p.val + p.test) == multiset(p.train + p.val) + multiset(p.test);
  }

  /** The intended cut points for the ratios 0.9 and 0.05, in exact
      arithmetic: `floor(9n/10)` training rows and `floor(n/20)` validation rows. */
  function CutPoints(n: nat): (c: (nat, nat))
    ensures c.0 + c.1 <= n
    ensures 10 * c.0 <= 9 * n < 10 * c.0 + 10
    ensures 20 * c.1 <= n < 20 * c.1 + 20
  {
    (9 * n / 10, n / 20)
  }

  /** The whole split with the intended cut points: the test part takes the
      rest, and is never empty when there is any row. */
  function SplitDataset<T>(data: seq<T>): (p: Partition<T>)
    ensures p.train + p.val + p.test == data
    ensures |p.train| == CutPoints(|data|).0 && |p.val| == CutPoints(|data|).1
    ensures |p.test| == |data| - CutPoints(|data|).0 - CutPoints(|data|).1
    ensures |data| > 0 ==> |p.test| > 0
  {
    var (nTrain, nVal) := CutPoints(|data|);
    SplitAt(data, nTrain, nVal)
  }

  /** From two rows on the training part is non-empty, and from twenty rows
      on the validation part is too. */
  lemma SplitPartsNonEmpty<T>(data: seq<T>)
    requires |data| >= 2
    ensures |SplitDataset(data).train| > 0
    ensures |data| >= 20 ==> |SplitDataset(data).val| > 0
  {
  }
}
