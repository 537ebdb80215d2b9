/** Index slices: the compact descriptors that the slice specialisations of the
    scatter node keep beside their explicit index sequence.

    A `Slice(start, stop, step)` with a positive step stands for the arithmetic
    progression start, start + step, start + 2*step, ... strictly below stop.
    A nested slice `Slice2(inner, outer)` stands for the block pattern obtained by
    adding every inner value to every outer value, the outer value varying slower.
    Both expansions and the detection functions below are this model's own
    definitions of the slice arithmetic the node relies on.
 */
module Slices {

  datatype Option<T> = None | Some(value: T)

  /** An arithmetic progression descriptor. */
  datatype Slice = Slice(start: int, stop: int, step: int) {
    predicate Valid() {
      step > 0
    }
  }

  /** A nested progression: inner offsets repeated at every outer offset. */
  datatype Slice2 = Slice2(inner: Slice, outer: Slice) {
    predicate Valid() {
      inner.Valid() && outer.Valid()
    }
  }

  /** The values start, start + step, ... strictly below stop. ExpandAt and
      ExpandBounds state what the expansion holds. */
  function Expand(s: Slice): (r: seq<int>)
    requires s.Valid()
    decreases s.stop - s.start
  {
    if s.stop <= s.start then []
    else [s.start] + Expand(Slice(s.start + s.step, s.stop, s.step))
  }

  /** An expansion stays in [start, stop), and it ends only where one more step
      would reach stop, so no progression value below stop is missed. */
  lemma {:induction false} ExpandBounds(s: Slice)
    requires s.Valid()
    ensures forall k :: 0 <= k < |Expand(s)| ==> s.start <= Expand(s)[k] < s.stop
    ensures |Expand(s)| == 0 ==> s.stop <= s.start
    ensures |Expand(s)| > 0 ==> s.stop <= Expand(s)[|Expand(s)| - 1] + s.step
    decreases s.stop - s.start
  {
    if s.start < s.stop {
      var next := Slice(s.start + s.step, s.stop, s.step);
      ExpandBounds(next);
    }
  }

  /** Element k of a slice's expansion is start + k * step. */
  lemma {:induction false} ExpandAt(s: Slice, k: nat)
    requires s.Valid() && k < |Expand(s)|
    ensures Expand(s)[k] == s.start + k * s.step
    decreases s.stop - s.start
  {
    if k > 0 {
      var next := Slice(s.start + s.step, s.stop, s.step);
      assert Expand(s) == [s.start] + Expand(next);
      ExpandAt(next, k - 1);
      assert (k - 1) * s.step + s.step == k * s.step;
    }
  }

  /** Every value of `inner` shifted by `offset`. */
  function Shift(offset: int, inner: seq<int>): (r: seq<int>)
    ensures |r| == |inner|
    ensures forall k :: 0 <= k < |r| ==> r[k] == offset + inner[k]
  {
    seq(|inner|, k requires 0 <= k < |inner| => offset + inner[k])
  }

  /** For each outer value in order, the block of that value plus each inner value. */
  function Nest(outer: seq<int>, inner: seq<int>): seq<int>
  {
    if |outer| == 0 then []
    else Shift(outer[0], inner) + Nest(outer[1..], inner)
  }

  /** The index sequence a nested slice stands for. */
  function Expand2(p: Slice2): seq<int>
    requires p.Valid()
  {
    Nest(Expand(p.outer), Expand(p.inner))
  }

  /** A nested expansion has one block of |inner| values per outer value. */
  lemma {:induction false} NestLength(outer: seq<int>, inner: seq<int>)
    ensures |Nest(outer, inner)| == |outer| * |inner|
    decreases |outer|
  {
    if |outer| > 0 {
      NestLength(outer[1..], inner);
      assert |outer| * |inner| == |inner| + (|outer| - 1) * |inner|;
    }
  }

  /** A nested expansion is empty exactly when one of its parts is, and
      otherwise holds at least one whole block. */
  lemma {:induction false} NestSize(outer: seq<int>, inner: seq<int>)
    ensures |outer| > 0 ==> |inner| <= |Nest(outer, inner)|
    ensures |Nest(outer, inner)| > 0 <==> |outer| > 0 && |inner| > 0
    decreases |outer|
  {
    if |outer| > 0 {
      NestSize(outer[1..], inner);
    }
  }

  /** Position a * |inner| + b of a nested expansion holds outer value a plus
      inner value b: blocks follow the outer order, so the outer value varies slower. */
  lemma {:induction false} NestBlock(outer: seq<int>, inner: seq<int>, a: nat, b: nat)
    requires a < |outer| && b < |inner|
    ensures a * |inner| + b < |Nest(outer, inner)|
    ensures Nest(outer, inner)[a * |inner| + b] == outer[a] + inner[b]
    decreases a
  {
    var head, rest := Shift(outer[0], inner), Nest(outer[1..], inner);
    assert Nest(outer, inner) == head + rest;
    if a > 0 {
      NestBlock(outer[1..], inner, a - 1, b);
      assert a * |inner| + b == |inner| + ((a - 1) * |inner| + b);
    }
  }

  /** Recognises an index sequence that is a single progression with a
      positive step and returns the slice that expands to it. */
  function ToSlice(v: seq<int>): (r: Option<Slice>)
    ensures r.Some? ==> r.value.Valid() && Expand(r.value) == v
  {
    if |v| == 0 then Some(Slice(0, 0, 1))
    else
      var step := if |v| == 1 then 1 else v[1] - v[0];
      if step > 0 && Expand(Slice(v[0], v[|v| - 1] + 1, step)) == v
      then Some(Slice(v[0], v[|v| - 1] + 1, step))
      else None
  }

  /** Any stop past the last value and no further than one more step gives the same expansion. */
  lemma {:induction false} ExpandSameStop(s: Slice, stop: int)
    requires s.Valid()
    requires |Expand(s)| == 0 ==> stop <= s.start
    requires |Expand(s)| > 0 ==> Expand(s)[|Expand(s)| - 1] < stop <= Expand(s)[|Expand(s)| - 1] + s.step
    ensures Expand(Slice(s.start, stop, s.step)) == Expand(s)
    decreases s.stop - s.start
  {
    var v := Expand(s);
    if |v| > 0 {
      var next := Slice(s.start + s.step, s.stop, s.step);
      assert v == [s.start] + Expand(next);
      if |v| > 1 {
        ExpandSameStop(next, stop);
      }
    }
  }

  /** Completeness of ToSlice: every expansion of a valid slice is recognised. */
  lemma ToSliceComplete(s: Slice)
    requires s.Valid()
    ensures ToSlice(Expand(s)).Some?
  {
    var v := Expand(s);
    if |v| == 1 {
      var t := Slice(v[0], v[0] + 1, 1);
      assert Expand(t) == [v[0]] + Expand(Slice(v[0] + 1, v[0] + 1, 1));
    } else if |v| > 1 {
      var next := Slice(s.start + s.step, s.stop, s.step);
      assert v == [s.start] + Expand(next);
      assert v[0] == s.start && v[1] == s.start + s.step;
      var t := Slice(v[0], v[|v| - 1] + 1, v[1] - v[0]);
      assert t == Slice(s.start, v[|v| - 1] + 1, s.step);
      ExpandSameStop(s, v[|v| - 1] + 1);
      assert Expand(t) == v;
    }
  }

  /** The sequence v[0], v[m], v[2m], ... of block heads. */
  function Heads(v: seq<int>, m: nat): seq<int>
    requires m > 0
    decreases |v|
  {
    if |v| == 0 then []
    else [v[0]] + Heads(if m <= |v| then v[m..] else [], m)
  }

  /** The first m values of v, rebased so that the first one is 0. */
  function Rebase(v: seq<int>, m: nat): (r: seq<int>)
    requires 0 < m <= |v|
    ensures |r| == m && r[0] == 0
    ensures forall k :: 0 <= k < m ==> r[k] == v[k] - v[0]
  {
    seq(m, k requires 0 <= k < m => v[k] - v[0])
  }

  /** Tries the block length m: inner offsets from the first block, outer
      offsets from the block heads, accepted only if they rebuild v. */
  function TryBlock(v: seq<int>, m: nat): (r: Option<Slice2>)
    requires 0 < m <= |v|
    ensures r.Some? ==> r.value.Valid() && Expand2(r.value) == v
  {
    var inner := ToSlice(Rebase(v, m));
    var outer := ToSlice(Heads(v, m));
    if inner.Some? && outer.Some? && Expand2(Slice2(inner.value, outer.value)) == v
    then Some(Slice2(inner.value, outer.value))
    else None
  }

  /** The first block length from m upwards that TryBlock accepts. */
  function FindBlock(v: seq<int>, m: nat): (r: Option<Slice2>)
    requires 0 < m <= |v|
    ensures r.Some? ==> r.value.Valid() && Expand2(r.value) == v
    decreases |v| - m
  {
    var attempt := TryBlock(v, m);
    if attempt.Some? then attempt
    else if m == |v| then None
    else FindBlock(v, m + 1)
  }

  /** Recognises an index sequence that is a nested progression and returns
      the nested slice that expands to it. */
  function ToSlice2(v: seq<int>): (r: Option<Slice2>)
    ensures r.Some? ==> r.value.Valid() && Expand2(r.value) == v
  {
    if |v| == 0 then Some(Slice2(Slice(0, 0, 1), Slice(0, 0, 1)))
    else FindBlock(v, 1)
  }

  /** Shifting a slice's expansion by c gives the expansion of the shifted slice. */
  lemma {:induction false} ExpandShift(c: int, s: Slice)
    requires s.Valid()
    ensures Shift(c, Expand(s)) == Expand(Slice(s.start + c, s.stop + c, s.step))
    decreases s.stop - s.start
  {
    if s.start < s.stop {
      var next := Slice(s.start + s.step, s.stop, s.step);
      var t, tn := Slice(s.start + c, s.stop + c, s.step), Slice(s.start + s.step + c, s.stop + c, s.step);
      var e, en := Expand(s), Expand(next);
      assert e == [s.start] + en;
      assert Expand(t) == [s.start + c] + Expand(tn);
      ExpandShift(c, next);
      var lhs, rhs := Shift(c, e), [s.start + c] + Shift(c, en);
      forall k | 0 <= k < |lhs|
        ensures lhs[k] == rhs[k]
      {
        if k > 0 {
          assert e[k] == en[k - 1];
        }
      }
      assert lhs == rhs;
    }
  }

  /** A slice shifted by a constant is again a single progression. */
  lemma ShiftedSliceRecognised(c: int, s: Slice)
    requires s.Valid()
    ensures ToSlice(Shift(c, Expand(s))).Some?
  {
    ExpandShift(c, s);
    ToSliceComplete(Slice(s.start + c, s.stop + c, s.step));
  }

  /** Shifting the outer offsets up and the inner offsets down by the same
      amount leaves the nested expansion unchanged. */
  lemma {:induction false} NestShift(outer: seq<int>, inner: seq<int>, c: int)
    ensures Nest(Shift(c, outer), Shift(-c, inner)) == Nest(outer, inner)
    decreases |outer|
  {
    if |outer| > 0 {
      assert Shift(c, outer)[1..] == Shift(c, outer[1..]);
      NestShift(outer[1..], inner, c);
      assert Shift(c + outer[0], Shift(-c, inner)) == Shift(outer[0], inner);
    }
  }

  /** The block heads of a nested expansion are the outer values shifted by the first inner value. */
  lemma {:induction false} HeadsOfNest(outer: seq<int>, inner: seq<int>)
    requires |inner| > 0
    ensures Heads(Nest(outer, inner), |inner|) == Shift(inner[0], outer)
    decreases |outer|
  {
    var v := Nest(outer, inner);
    if |outer| > 0 {
      HeadsOfNest(outer[1..], inner);
      assert v[|inner|..] == Nest(outer[1..], inner);
      assert Shift(inner[0], outer) == [outer[0] + inner[0]] + Shift(inner[0], outer[1..]);
    }
  }

  /** FindBlock succeeds whenever some block length at or above its start is accepted. */
  lemma {:induction false} FindBlockReaches(v: seq<int>, m0: nat, m: nat)
    requires 0 < m0 <= m <= |v|
    requires TryBlock(v, m).Some?
    ensures FindBlock(v, m0).Some?
    decreases m - m0
  {
    var attempt := TryBlock(v, m0);
    if attempt.None? {
      FindBlockReaches(v, m0 + 1, m);
      assert FindBlock(v, m0) == FindBlock(v, m0 + 1);
    }
  }

  /** The first block of a nested expansion, rebased, is the inner values rebased. */
  lemma FirstBlock(outer: seq<int>, inner: seq<int>)
    requires |outer| > 0 && |inner| > 0
    ensures |inner| <= |Nest(outer, inner)|
    ensures Rebase(Nest(outer, inner), |inner|) == Shift(-inner[0], inner)
  {
    NestSize(outer, inner);
    var v := Nest(outer, inner);
    var head := Shift(outer[0], inner);
    assert v == head + Nest(outer[1..], inner);
    var r, t := Rebase(v, |inner|), Shift(-inner[0], inner);
    forall k | 0 <= k < |inner|
      ensures r[k] == t[k]
    {
      assert v[k] == head[k];
    }
  }

  /** The rebased first block of a nonempty nested expansion is recognised,
      as the inner values rebased. */
  lemma InnerRecognised(p: Slice2)
    requires p.Valid() && |Expand2(p)| > 0
    ensures 0 < |Expand(p.inner)| <= |Expand2(p)|
    ensures ToSlice(Rebase(Expand2(p), |Expand(p.inner)|)).Some?
    ensures Expand(ToSlice(Rebase(Expand2(p), |Expand(p.inner)|)).value) == Shift(-Expand(p.inner)[0], Expand(p.inner))
  {
    var outer, inner := Expand(p.outer), Expand(p.inner);
    NestSize(outer, inner);
    FirstBlock(outer, inner);
    ShiftedSliceRecognised(-inner[0], p.inner);
  }

  /** The block heads of a nonempty nested expansion are recognised, as the
      outer values shifted by the first inner value. */
  lemma OuterRecognised(p: Slice2)
    requires p.Valid() && |Expand2(p)| > 0
    ensures 0 < |Expand(p.inner)|
    ensures ToSlice(Heads(Expand2(p), |Expand(p.inner)|)).Some?
    ensures Expand(ToSlice(Heads(Expand2(p), |Expand(p.inner)|)).value) == Shift(Expand(p.inner)[0], Expand(p.outer))
  {
    var outer, inner := Expand(p.outer), Expand(p.inner);
    NestSize(outer, inner);
    HeadsOfNest(outer, inner);
    ShiftedSliceRecognised(inner[0], p.outer);
  }

  /** TryBlock accepts m once both parts are recognised and rebuild v. */
  lemma TryBlockAccepts(v: seq<int>, m: nat, si: Slice, so: Slice)
    requires 0 < m <= |v|
    requires ToSlice(Rebase(v, m)) == Some(si) && ToSlice(Heads(v, m)) == Some(so)
    requires Nest(Expand(so), Expand(si)) == v
    ensures TryBlock(v, m).Some?
  {
  }

  /** The true inner length is an accepted block length of a nonempty nested expansion. */
  lemma TryBlockOfNest(p: Slice2)
    requires p.Valid() && |Expand2(p)| > 0
    ensures 0 < |Expand(p.inner)| <= |Expand2(p)|
    ensures TryBlock(Expand2(p), |Expand(p.inner)|).Some?
  {
    var v := Expand2(p);
    var outer, inner := Expand(p.outer), Expand(p.inner);
    var m := |inner|;
    InnerRecognised(p);
    OuterRecognised(p);
    var si, so := ToSlice(Rebase(v, m)).value, ToSlice(Heads(v, m)).value;
    NestShift(outer, inner, inner[0]);
    assert Nest(Expand(so), Expand(si)) == v;
    TryBlockAccepts(v, m, si, so);
  }

  /** Completeness of ToSlice2: every expansion of a valid nested slice is recognised. */
  lemma ToSlice2Complete(p: Slice2)
    requires p.Valid()
    ensures ToSlice2(Expand2(p)).Some?
  {
    var v := Expand2(p);
    if |v| > 0 {
      TryBlockOfNest(p);
      FindBlockReaches(v, 1, |Expand(p.inner)|);
    }
  }

  /** A plain slice is a nested slice whose inner part is the single offset 0. */
  lemma {:induction false} NestUnit(outer: seq<int>)
    ensures Nest(outer, [0]) == outer
    decreases |outer|
  {
    if |outer| > 0 {
      NestUnit(outer[1..]);
    }
  }

  /** ToSlice succeeds exactly on the expansions of valid slices. */
  lemma ToSliceExact(v: seq<int>)
    ensures ToSlice(v).Some? <==> exists s: Slice :: s.Valid() && Expand(s) == v
  {
    if ToSlice(v).None? {
      forall s: Slice | s.Valid()
        ensures Expand(s) != v
      {
        ToSliceComplete(s);
      }
    }
  }

  /** ToSlice2 succeeds exactly on the expansions of valid nested slices. */
  lemma ToSlice2Exact(v: seq<int>)
    ensures ToSlice2(v).Some? <==> exists p: Slice2 :: p.Valid() && Expand2(p) == v
  {
    if ToSlice2(v).None? {
      forall p: Slice2 | p.Valid()
        ensures Expand2(p) != v
      {
        ToSlice2Complete(p);
      }
    }
  }

  /** A slice is the nested slice with the single inner offset 0 repeated at its values. */
  lemma SliceAsNested(s: Slice)
    requires s.Valid()
    ensures Slice2(Slice(0, 1, 1), s).Valid()
    ensures Expand2(Slice2(Slice(0, 1, 1), s)) == Expand(s)
  {
    assert Expand(Slice(0, 1, 1)) == [0];
    NestUnit(Expand(s));
  }

  /** Example: the indices 1, 2, 3 are recognised as the slice (1, 4, 1). */
  lemma ContiguousIndicesDetected()
    ensures ToSlice([1, 2, 3]) == Some(Slice(1, 4, 1))
  {
  }
}
