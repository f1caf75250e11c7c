/** A data set (dataset.rs): the training items, all of one kind and one
    width. */
module DataSets {
  import opened Common
  import opened DataItems

  datatype DataSetError = HeterogenousData | LengthMismatch | InvalidPercentage

  /** Every item has the kind and the width of the first. */
  predicate Homogeneous(items: seq<DataItem>) {
    forall i :: 0 <= i < |items| ==>
      IsBinary(items[i]) == IsBinary(items[0]) && Width(items[i]) == Width(items[0])
  }

  /** Any part of a homogeneous list is homogeneous. */
  lemma HomogeneousSlice(items: seq<DataItem>, lo: nat, hi: nat)
    requires Homogeneous(items) && lo <= hi <= |items|
    ensures Homogeneous(items[lo..hi])
  {
    if lo < hi {
      forall i | 0 <= i < hi - lo
        ensures IsBinary(items[lo..hi][i]) == IsBinary(items[lo..hi][0])
        ensures Width(items[lo..hi][i]) == Width(items[lo..hi][0])
      {
        assert items[lo..hi][i] == items[lo + i];
        assert items[lo..hi][0] == items[lo];
      }
    }
  }

  /** The split index of `split_at_percentage`: `percentage` percent of
      `n`, rounded down. */
  function SplitIndex(percentage: nat, n: nat): (k: nat)
    requires percentage <= 100
    ensures k <= n
    ensures k * 100 <= percentage * n < (k + 1) * 100
  {
    percentage * n / 100
  }

  class DataSet {
    var items: seq<DataItem>

    constructor (items: seq<DataItem>)
      ensures this.items == items
    {
      this.items := items;
    }

    /** `DataSet::len`. */
    function Len(): (n: nat)
      reads this
      ensures n == |items|
    {
      |items|
    }

    /** `DataSet::push`: into a non-empty set an item of another kind is
        refused with `HeterogenousData`, then one of another width with
        `LengthMismatch`; a refused item leaves the set as it was. */
    method Push(item: DataItem) returns (res: Result<(), DataSetError>)
      modifies this
      ensures old(items) == [] ==> res.Ok?
      ensures res == Err(HeterogenousData) <==> old(items) != [] && IsBinary(item) != IsBinary(old(items)[0])
      ensures res == Err(LengthMismatch) <==>
                old(items) != [] && IsBinary(item) == IsBinary(old(items)[0]) && Width(item) != Width(old(items)[0])
      ensures res.Ok? ==> items == old(items) + [item]
      ensures res.Err? ==> items == old(items)
      ensures Homogeneous(old(items)) ==> Homogeneous(items)
    {
      if |items| > 0 {
        if IsBinary(item) != IsBinary(items[0]) {
          return Err(HeterogenousData);
        }
        if Width(item) != Width(items[0]) {
          return Err(LengthMismatch);
        }
      }
      items := items + [item];
      res := Ok(());
    }

    /** `DataSet::split_at_percentage`: the first `percentage` percent of the
        items, in order, and the rest; a percentage above 100 is refused. */
    method SplitAtPercentage(percentage: nat) returns (res: Result<(DataSet, DataSet), DataSetError>)
      ensures res.Err? <==> percentage > 100
      ensures res.Err? ==> res.error == InvalidPercentage
      ensures res.Ok? ==>
                var k := SplitIndex(percentage, |items|);
                && fresh(res.value.0) && fresh(res.value.1)
                && res.value.0.items == items[..k]
                && res.value.1.items == items[k..]
                && res.value.0.items + res.value.1.items == items
      ensures res.Ok? && Homogeneous(items) ==> Homogeneous(res.value.0.items) && Homogeneous(res.value.1.items)
    {
      if percentage > 100 {
        return Err(InvalidPercentage);
      }
      var splitIndex := SplitIndex(percentage, |items|);
      var first: seq<DataItem> := [];
      var second: seq<DataItem> := [];
      var index := 0;
      while index < |items|
        invariant index <= |items|
        invariant first == items[..if index < splitIndex then index else splitIndex]
        invariant second == if index < splitIndex then [] else items[splitIndex..index]
      {
        if index < splitIndex {
          first := first + [items[index]];
        } else {
          second := second + [items[index]];
        }
        index := index + 1;
      }
      assert items[..splitIndex] + items[splitIndex..] == items;
      if Homogeneous(items) {
        HomogeneousSlice(items, 0, splitIndex);
        HomogeneousSlice(items, splitIndex, |items|);
        assert items[..splitIndex] == items[0..splitIndex];
      }
      var a := new DataSet(first);
      var b := new DataSet(second);
      res := Ok((a, b));
    }
  }
}
