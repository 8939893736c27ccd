/** The pairing protocol of `OF_gen`: `zip(images[:-1], images[1:])`. */
module FramePairs {

  /** `s[:-1]`: everything but the last element; Python gives `[]` for an
      empty list instead of failing. */
  function DropLast<T>(s: seq<T>): seq<T>
  {
    if |s| == 0 then [] else s[..|s| - 1]
  }

  /** `s[1:]`: everything but the first element, `[]` for an empty list. */
  function DropFirst<T>(s: seq<T>): seq<T>
  {
    if |s| == 0 then [] else s[1..]
  }

  /** Python's `zip` of two lists: element-wise pairs, stopping at the end
      of the shorter list. */
  function Zip<A, B>(a: seq<A>, b: seq<B>): (r: seq<(A, B)>)
    ensures |r| == if |a| <= |b| then |a| else |b|
    ensures forall k :: 0 <= k < |r| ==> r[k] == (a[k], b[k])
  {
    if |a| == 0 || |b| == 0 then [] else [(a[0], b[0])] + Zip(a[1..], b[1..])
  }

  /** The frame pairs `OF_gen` iterates over: `zip(images[:-1], images[1:])`.
      A list of length L gives max(L - 1, 0) pairs and pair k is
      (images[k], images[k + 1]). */
  function AdjacentPairs<T>(images: seq<T>): (r: seq<(T, T)>)
    ensures |r| == if |images| == 0 then 0 else |images| - 1
    ensures forall k :: 0 <= k < |r| ==> r[k] == (images[k], images[k + 1])
  {
    Zip(DropLast(images), DropFirst(images))
  }

  /** The frame positions 0 .. length - 1 of a listing. */
  function Positions(length: nat): seq<nat>
  {
    seq(length, k requires 0 <= k => k)
  }

  /** The indices of the pairs, among those `OF_gen` forms from a listing of
      the given length, that use the frame at position k. */
  function PairsUsing(length: nat, k: nat): set<nat>
  {
    var pairs := AdjacentPairs(Positions(length));
    set j: nat | j < |pairs| && (pairs[j].0 == k || pairs[j].1 == k)
  }

  /** An interior frame is used by exactly two pairs, the one before it
      (as second frame) and the one after it (as first frame); the first and
      the last frame by one pair each, and a lone frame by none. */
  lemma PairsUsingFrame(length: nat, k: nat)
    requires k < length
    ensures 0 < k < length - 1 ==> PairsUsing(length, k) == {k - 1, k} && |PairsUsing(length, k)| == 2
    ensures 0 == k < length - 1 ==> PairsUsing(length, k) == {0}
    ensures 0 < k == length - 1 ==> PairsUsing(length, k) == {k - 1}
    ensures length == 1 ==> PairsUsing(length, k) == {}
  {
    var s := PairsUsing(length, k);
    var pairs := AdjacentPairs(Positions(length));
    assert forall j :: 0 <= j < |pairs| ==> pairs[j] == (j, j + 1);
    if 0 < k < length - 1 {
      assert pairs[k - 1].1 == k && pairs[k].0 == k;
      assert s == {k - 1, k};
    }
    if 0 == k < length - 1 {
      assert pairs[0].0 == 0;
      assert s == {0};
    }
    if 0 < k == length - 1 {
      assert pairs[k - 1].1 == k;
      assert s == {k - 1};
    }
  }
}
