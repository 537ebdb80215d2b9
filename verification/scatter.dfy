/** The scatter at the heart of the set-nonzeros node, on the vectors of stored
    nonzeros: source value x[k] is written into (Assign) or added onto (Add)
    destination slot nz[k], for k = 0, 1, ... in order.
 */
module ScatterOps {

  /** Whether the node overwrites its target slots or accumulates into them. */
  datatype Mode = Assign | Add

  /** Every index of nz is a valid slot of a vector with n entries. */
  predicate InRange(nz: seq<int>, n: nat) {
    forall k :: 0 <= k < |nz| ==> 0 <= nz[k] < n
  }

  /** The sequential scatter: the writes of the first |nz| - 1 entries, then the last one. */
  function Scatter(mode: Mode, y: seq<int>, x: seq<int>, nz: seq<int>): (r: seq<int>)
    requires |x| == |nz| && InRange(nz, |y|)
    ensures |r| == |y|
    decreases |nz|
  {
    if |nz| == 0 then y
    else
      var n := |nz| - 1;
      var prev := Scatter(mode, y, x[..n], nz[..n]);
      var j := nz[n];
      prev[j := if mode == Add then prev[j] + x[n] else x[n]]
  }

  /** The position of the last entry of nz that names slot j. */
  function LastWrite(nz: seq<int>, j: int): (k: nat)
    requires j in nz
    ensures k < |nz| && nz[k] == j
    ensures forall i :: k < i < |nz| ==> nz[i] != j
    decreases |nz|
  {
    var n := |nz| - 1;
    if nz[n] == j then n
    else
      assert j in nz[..n] by {
        var i :| 0 <= i < |nz| && nz[i] == j;
        assert nz[..n][i] == j;
      }
      LastWrite(nz[..n], j)
  }

  /** The sum of the source values x[k] whose index nz[k] is slot j. */
  function SumAt(x: seq<int>, nz: seq<int>, j: int): int
    requires |x| == |nz|
    decreases |nz|
  {
    if |nz| == 0 then 0
    else
      var n := |nz| - 1;
      SumAt(x[..n], nz[..n], j) + (if nz[n] == j then x[n] else 0)
  }

  /** Nothing is added onto a slot that nz does not name. */
  lemma {:induction false} SumAtUnnamed(x: seq<int>, nz: seq<int>, j: int)
    requires |x| == |nz| && j !in nz
    ensures SumAt(x, nz, j) == 0
    decreases |nz|
  {
    if |nz| > 0 {
      var n := |nz| - 1;
      assert j !in nz[..n];
      SumAtUnnamed(x[..n], nz[..n], j);
    }
  }

  /** Assign mode: a named slot holds the source value of its last write, any
      other slot keeps the destination value. */
  lemma {:induction false} ScatterAssign(y: seq<int>, x: seq<int>, nz: seq<int>)
    requires |x| == |nz| && InRange(nz, |y|)
    ensures forall j :: 0 <= j < |y| && j in nz ==> Scatter(Assign, y, x, nz)[j] == x[LastWrite(nz, j)]
    ensures forall j :: 0 <= j < |y| && j !in nz ==> Scatter(Assign, y, x, nz)[j] == y[j]
    decreases |nz|
  {
    if |nz| > 0 {
      var n := |nz| - 1;
      var xs, ns := x[..n], nz[..n];
      ScatterAssign(y, xs, ns);
      var r := Scatter(Assign, y, x, nz);
      forall j | 0 <= j < |y|
        ensures j in nz ==> r[j] == x[LastWrite(nz, j)]
        ensures j !in nz ==> r[j] == y[j]
      {
        if j != nz[n] {
          assert j in nz <==> j in ns by {
            assert nz == ns + [nz[n]];
          }
          if j in nz {
            assert LastWrite(nz, j) == LastWrite(ns, j);
          }
        }
      }
    }
  }

  /** Add mode: every slot holds its destination value plus the sum of the
      source values aimed at it, so repeated indices accumulate. */
  lemma {:induction false} ScatterAdd(y: seq<int>, x: seq<int>, nz: seq<int>)
    requires |x| == |nz| && InRange(nz, |y|)
    ensures forall j :: 0 <= j < |y| ==> Scatter(Add, y, x, nz)[j] == y[j] + SumAt(x, nz, j)
    decreases |nz|
  {
    if |nz| > 0 {
      var n := |nz| - 1;
      ScatterAdd(y, x[..n], nz[..n]);
    }
  }

  /** In either mode a slot that nz does not name keeps its destination value. */
  lemma ScatterUnnamed(mode: Mode, y: seq<int>, x: seq<int>, nz: seq<int>, j: int)
    requires |x| == |nz| && InRange(nz, |y|)
    requires 0 <= j < |y| && j !in nz
    ensures Scatter(mode, y, x, nz)[j] == y[j]
  {
    if mode == Assign {
      ScatterAssign(y, x, nz);
    } else {
      ScatterAdd(y, x, nz);
      SumAtUnnamed(x, nz, j);
    }
  }

  /** No slot is named twice. */
  predicate Distinct(nz: seq<int>) {
    forall i, k :: 0 <= i < k < |nz| ==> nz[i] != nz[k]
  }

  /** Reads back slot nz[k] of v for every k: the inverse of an assigning scatter. */
  function Gather(v: seq<int>, nz: seq<int>): (r: seq<int>)
    requires InRange(nz, |v|)
    ensures |r| == |nz|
    ensures forall k :: 0 <= k < |nz| ==> r[k] == v[nz[k]]
  {
    seq(|nz|, k requires 0 <= k < |nz| => v[nz[k]])
  }

  /** With distinct indices, gathering an assigning scatter at the same
      indices gives back the source values in order. */
  lemma GatherAfterScatter(y: seq<int>, x: seq<int>, nz: seq<int>)
    requires |x| == |nz| && InRange(nz, |y|) && Distinct(nz)
    ensures Gather(Scatter(Assign, y, x, nz), nz) == x
  {
    ScatterAssign(y, x, nz);
    var r := Scatter(Assign, y, x, nz);
    forall k | 0 <= k < |nz|
      ensures r[nz[k]] == x[k]
    {
      var l := LastWrite(nz, nz[k]);
      assert l == k;
    }
  }

  /** Example: assigning [1, 2] into slots 0 and 2 of [10, 20, 30, 40, 50]. */
  lemma AssignExample()
    ensures Scatter(Assign, [10, 20, 30, 40, 50], [1, 2], [0, 2]) == [1, 20, 2, 40, 50]
  {
    assert [1, 2][..1] == [1] && [0, 2][..1] == [0];
  }

  /** Example: adding [1, 2] onto slots 0 and 2 of [10, 20, 30, 40, 50]. */
  lemma AddExample()
    ensures Scatter(Add, [10, 20, 30, 40, 50], [1, 2], [0, 2]) == [11, 20, 32, 40, 50]
  {
    assert [1, 2][..1] == [1] && [0, 2][..1] == [0];
  }

  /** Example: two source values aimed at one slot; Assign keeps the later, Add sums both. */
  lemma RepeatedIndexExample()
    ensures Scatter(Assign, [10, 20], [1, 2], [1, 1]) == [10, 2]
    ensures Scatter(Add, [10, 20], [1, 2], [1, 1]) == [10, 23]
  {
    assert [1, 2][..1] == [1] && [1, 1][..1] == [1];
  }
}
