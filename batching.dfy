/** How `check_actual_displayed_page` cuts the anchors of the displayed page
    into the batches it fetches one after the other. */
module Batching {

  /** `batchSize`: the number of pages fetched together. */
  const BatchSize: nat := 5

  function Min(a: int, b: int): int
  {
    if a <= b then a else b
  }

  /** The slices `links.slice(i, i + batchSize)` for i = 0, 5, 10, ... while
      i is below the length. */
  function Batches<T>(s: seq<T>): (bs: seq<seq<T>>)
    ensures forall k :: 0 <= k < |bs| ==> 0 < |bs[k]| <= BatchSize
    decreases |s|
  {
    if s == [] then []
    else [s[..Min(BatchSize, |s|)]] + Batches(s[Min(BatchSize, |s|)..])
  }

  /** The batches laid end to end. */
  function Flatten<T>(ss: seq<seq<T>>): seq<T>
  {
    if ss == [] then [] else Flatten(ss[..|ss| - 1]) + ss[|ss| - 1]
  }

  lemma {:induction false} FlattenCons<T>(x: seq<T>, ys: seq<seq<T>>)
    ensures Flatten([x] + ys) == x + Flatten(ys)
    decreases |ys|
  {
    if ys == [] {
      assert [x][..0] == [];
    } else {
      var front := ys[..|ys| - 1];
      assert ([x] + ys)[..|ys|] == [x] + front;
      FlattenCons(x, front);
    }
  }

  /** Where batch k starts: `i` after k turns of `i += batchSize`. */
  function Start(k: nat): nat
  {
    k * BatchSize
  }

  /** Shifting a start position back by one batch. */
  lemma PreviousStart(k: nat)
    requires k > 0
    ensures (k - 1) * BatchSize == k * BatchSize - BatchSize
  {
  }

  /** There is a batch k exactly when the list reaches past position
      k * batchSize: the loop goes on while `i < links.length`. */
  lemma {:induction false} BatchesRemain<T>(s: seq<T>, k: nat)
    ensures k < |Batches(s)| <==> k * BatchSize < |s|
    decreases |s|
  {
    if s != [] && k > 0 {
      var n := Min(BatchSize, |s|);
      BatchesRemain(s[n..], k - 1);
      PreviousStart(k);
    }
  }

  /** Batch k starts at k * batchSize and holds the next batchSize elements,
      or the rest when fewer remain. */
  lemma {:induction false} BatchAt<T>(s: seq<T>, k: nat)
    requires k < |Batches(s)|
    ensures k * BatchSize < |s| && Batches(s)[k] == s[k * BatchSize..Min(k * BatchSize + BatchSize, |s|)]
    decreases |s|
  {
    BatchesRemain(s, k);
    if k > 0 {
      var n := Min(BatchSize, |s|);
      var rest := s[n..];
      assert Batches(s)[k] == Batches(rest)[k - 1];
      BatchAt(rest, k - 1);
      PreviousStart(k);
      var j := (k - 1) * BatchSize;
      assert n == BatchSize;
      assert j + n == k * BatchSize;
      assert rest[j..Min(j + BatchSize, |rest|)] == s[j + n..Min(j + n + BatchSize, |s|)];
    }
  }

  /** The batches put back together are the original list, in order. */
  lemma {:induction false} FlattenBatches<T>(s: seq<T>)
    ensures Flatten(Batches(s)) == s
    decreases |s|
  {
    if s != [] {
      var n := Min(BatchSize, |s|);
      FlattenBatches(s[n..]);
      FlattenCons(s[..n], Batches(s[n..]));
      assert s[..n] + s[n..] == s;
    }
  }

  /** Rearranging the inside of each batch rearranges the whole list. */
  lemma {:induction false} FlattenRearranged<T>(ss: seq<seq<T>>, ts: seq<seq<T>>)
    requires |ss| == |ts|
    requires forall k :: 0 <= k < |ss| ==> multiset(ss[k]) == multiset(ts[k])
    ensures multiset(Flatten(ss)) == multiset(Flatten(ts))
    decreases |ss|
  {
    if ss != [] {
      FlattenRearranged(ss[..|ss| - 1], ts[..|ts| - 1]);
    }
  }
}
