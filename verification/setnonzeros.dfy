/** The set-nonzeros node family: a graph node that takes a destination y and a
    source x, both seen as their vectors of stored nonzeros, and scatters x into
    y along its operation sequence nz, assigning or adding.

    The general variant keeps only nz; the slice and nested-slice variants also
    keep a descriptor that expands to nz. They differ only in how they print and
    generate code, so every variant evaluates through the general scatter.
 */
module SetNonzeros {
  import opened Slices
  import opened ScatterOps

  /** The operation codes of the two modes. */
  datatype Op = OpSetNonzeros | OpAddNonzeros

  /** Which member of the family a node is, with the descriptor it keeps. */
  datatype Kind = VectorKind | SliceKind(s: Slice) | Slice2Kind(p: Slice2)

  /** A node: its mode, its variant, its operation sequence and the number of
      nonzeros of its destination (and so of its output). */
  datatype Node = Node(mode: Mode, kind: Kind, nz: seq<int>, ySize: nat)

  /** Why a node cannot be built. */
  datatype Error = LengthMismatch | IndexOutOfRange | NotASlice | NotANestedSlice

  datatype Result<T> = Ok(value: T) | Err(error: Error)

  /** The descriptor a variant keeps expands to the operation sequence. */
  predicate DescribedBy(kind: Kind, nz: seq<int>) {
    match kind
    case VectorKind => true
    case SliceKind(s) => s.Valid() && Expand(s) == nz
    case Slice2Kind(p) => p.Valid() && Expand2(p) == nz
  }

  /** The invariant every constructed node keeps. */
  predicate Valid(n: Node) {
    InRange(n.nz, n.ySize) && DescribedBy(n.kind, n.nz)
  }

  /** The operation code reported for a mode. */
  function GetOp(mode: Mode): (op: Op)
    ensures op == OpAddNonzeros <==> mode == Add
  {
    if mode == Add then OpAddNonzeros else OpSetNonzeros
  }

  /** The mode an operation code stands for: the inverse of GetOp. */
  function ModeOf(op: Op): (mode: Mode)
    ensures GetOp(mode) == op
  {
    match op
    case OpSetNonzeros => Assign
    case OpAddNonzeros => Add
  }

  /** The general variant: the operands must agree with the operation sequence,
      which is stored as given. */
  function NewVector(mode: Mode, ySize: nat, xSize: nat, nz: seq<int>): (r: Result<Node>)
    ensures r.Ok? <==> |nz| == xSize && InRange(nz, ySize)
    ensures r.Err? ==> (r.error == LengthMismatch <==> |nz| != xSize)
    ensures r.Err? ==> r.error in {LengthMismatch, IndexOutOfRange}
    ensures r.Ok? ==> Valid(r.value) && r.value.kind == VectorKind
    ensures r.Ok? ==> r.value.mode == mode && r.value.nz == nz && r.value.ySize == ySize
  {
    if |nz| != xSize then Err(LengthMismatch)
    else if !InRange(nz, ySize) then Err(IndexOutOfRange)
    else Ok(Node(mode, VectorKind, nz, ySize))
  }

  /** The slice variant: as the general one, with the slice read off nz. */
  function NewSlice(mode: Mode, ySize: nat, xSize: nat, nz: seq<int>): (r: Result<Node>)
    ensures r.Ok? <==> NewVector(mode, ySize, xSize, nz).Ok? && exists s: Slice :: s.Valid() && Expand(s) == nz
    ensures r.Ok? ==> Valid(r.value) && r.value.kind.SliceKind? && Expand(r.value.kind.s) == nz
    ensures r.Ok? ==> r.value.mode == mode && r.value.nz == nz && r.value.ySize == ySize
  {
    ToSliceExact(nz);
    match NewVector(mode, ySize, xSize, nz)
    case Err(e) => Err(e)
    case Ok(n) =>
      match ToSlice(nz)
      case None => Err(NotASlice)
      case Some(s) => Ok(n.(kind := SliceKind(s)))
  }

  /** The nested-slice variant: as the general one, with the nested slice read off nz. */
  function NewSlice2(mode: Mode, ySize: nat, xSize: nat, nz: seq<int>): (r: Result<Node>)
    ensures r.Ok? <==> NewVector(mode, ySize, xSize, nz).Ok? && exists p: Slice2 :: p.Valid() && Expand2(p) == nz
    ensures r.Ok? ==> Valid(r.value) && r.value.kind.Slice2Kind? && Expand2(r.value.kind.p) == nz
    ensures r.Ok? ==> r.value.mode == mode && r.value.nz == nz && r.value.ySize == ySize
  {
    ToSlice2Exact(nz);
    match NewVector(mode, ySize, xSize, nz)
    case Err(e) => Err(e)
    case Ok(n) =>
      match ToSlice2(nz)
      case None => Err(NotANestedSlice)
      case Some(p) => Ok(n.(kind := Slice2Kind(p)))
  }

  /** Evaluation, shared by every variant: the scatter along the operation sequence. */
  function Eval(n: Node, y: seq<int>, x: seq<int>): (r: seq<int>)
    requires Valid(n) && |y| == n.ySize && |x| == |n.nz|
    ensures |r| == n.ySize
  {
    Scatter(n.mode, y, x, n.nz)
  }

  /** Every index sequence accepted by the slice variant is accepted by the other
      two, and the three nodes built from it evaluate identically. */
  lemma VariantsAgree(mode: Mode, ySize: nat, xSize: nat, nz: seq<int>, y: seq<int>, x: seq<int>)
    requires NewSlice(mode, ySize, xSize, nz).Ok?
    requires |y| == ySize && |x| == xSize
    ensures NewVector(mode, ySize, xSize, nz).Ok? && NewSlice2(mode, ySize, xSize, nz).Ok?
    ensures Eval(NewSlice(mode, ySize, xSize, nz).value, y, x) == Eval(NewVector(mode, ySize, xSize, nz).value, y, x)
    ensures Eval(NewSlice2(mode, ySize, xSize, nz).value, y, x) == Eval(NewVector(mode, ySize, xSize, nz).value, y, x)
  {
    var s := NewSlice(mode, ySize, xSize, nz).value.kind.s;
    SliceAsNested(s);
    assert Expand2(Slice2(Slice(0, 1, 1), s)) == nz;
  }

  /** Every index sequence accepted by the nested-slice variant is accepted by
      the general one, and the two nodes built from it evaluate identically. */
  lemma Slice2AgreesWithVector(mode: Mode, ySize: nat, xSize: nat, nz: seq<int>, y: seq<int>, x: seq<int>)
    requires NewSlice2(mode, ySize, xSize, nz).Ok?
    requires |y| == ySize && |x| == xSize
    ensures NewVector(mode, ySize, xSize, nz).Ok?
    ensures Eval(NewSlice2(mode, ySize, xSize, nz).value, y, x) == Eval(NewVector(mode, ySize, xSize, nz).value, y, x)
  {
  }

  /** Evaluation through a slice node's descriptor gives the node's result. */
  lemma SliceDescriptorEval(n: Node, y: seq<int>, x: seq<int>)
    requires Valid(n) && |y| == n.ySize && |x| == |n.nz|
    ensures n.kind.SliceKind? ==> Eval(n, y, x) == Scatter(n.mode, y, x, Expand(n.kind.s))
    ensures n.kind.Slice2Kind? ==> Eval(n, y, x) == Scatter(n.mode, y, x, Expand2(n.kind.p))
  {
  }

  /** The evaluation loop: one write per source nonzero, in order. */
  method Evaluate(n: Node, y: seq<int>, x: seq<int>) returns (r: seq<int>)
    requires Valid(n) && |y| == n.ySize && |x| == |n.nz|
    ensures r == Eval(n, y, x)
  {
    r := y;
    var k := 0;
    while k < |n.nz|
      invariant 0 <= k <= |n.nz|
      invariant r == Scatter(n.mode, y, x[..k], n.nz[..k])
    {
      var j := n.nz[k];
      assert x[..k + 1][..k] == x[..k] && n.nz[..k + 1][..k] == n.nz[..k];
      if n.mode == Add {
        r := r[j := r[j] + x[k]];
      } else {
        r := r[j := x[k]];
      }
      k := k + 1;
    }
    assert x[..k] == x && n.nz[..k] == n.nz;
  }

  /** How many operands may share their buffer with the output. */
  function NumInplace(n: Node): (r: nat)
    ensures r == 1
  {
    1
  }

  /** In-place evaluation: the output buffer is the destination operand's own
      buffer, and the scatter over it gives the same result as into a fresh one. */
  method EvaluateInPlace(n: Node, buf: array<int>, x: seq<int>)
    requires Valid(n) && buf.Length == n.ySize && |x| == |n.nz|
    requires NumInplace(n) >= 1
    modifies buf
    ensures buf[..] == Eval(n, old(buf[..]), x)
  {
    ghost var y := buf[..];
    var k := 0;
    while k < |n.nz|
      invariant 0 <= k <= |n.nz|
      invariant buf[..] == Scatter(n.mode, y, x[..k], n.nz[..k])
    {
      var j := n.nz[k];
      assert x[..k + 1][..k] == x[..k] && n.nz[..k + 1][..k] == n.nz[..k];
      if n.mode == Add {
        buf[j] := buf[j] + x[k];
      } else {
        buf[j] := x[k];
      }
      k := k + 1;
    }
    assert x[..k] == x && n.nz[..k] == n.nz;
  }

  /** The node is in fact a plain assignment: it assigns every destination slot,
      source nonzero k into slot k. */
  predicate IsAssignment(n: Node) {
    && n.mode == Assign
    && |n.nz| == n.ySize
    && forall k :: 0 <= k < |n.nz| ==> n.nz[k] == k
  }

  /** A plain assignment evaluates to its source. */
  lemma AssignmentEvaluatesToSource(n: Node, y: seq<int>, x: seq<int>)
    requires Valid(n) && IsAssignment(n) && |y| == n.ySize && |x| == |n.nz|
    ensures Eval(n, y, x) == x
  {
    ScatterAssign(y, x, n.nz);
    forall j | 0 <= j < |y|
      ensures Eval(n, y, x)[j] == x[j]
    {
      assert n.nz[j] == j;
      assert LastWrite(n.nz, j) == j;
    }
  }

  /** An assigning node is a plain assignment exactly when it evaluates to its
      source on every pair of operands. */
  lemma AssignmentCharacterised(n: Node)
    requires Valid(n) && n.mode == Assign
    ensures IsAssignment(n) <==>
      forall y: seq<int>, x: seq<int> | |y| == n.ySize && |x| == |n.nz| :: Eval(n, y, x) == x
  {
    if IsAssignment(n) {
      forall y: seq<int>, x: seq<int> | |y| == n.ySize && |x| == |n.nz|
        ensures Eval(n, y, x) == x
      {
        AssignmentEvaluatesToSource(n, y, x);
      }
    } else {
      var y := seq(n.ySize, j => -1);
      var x := seq(|n.nz|, k => k);
      var r := Eval(n, y, x);
      if r == x {
        ScatterAssign(y, x, n.nz);
        forall k | 0 <= k < |n.nz|
          ensures n.nz[k] == k
        {
          assert r[k] == k;
          assert k in n.nz;
          assert LastWrite(n.nz, k) == k;
        }
        assert IsAssignment(n);
      }
    }
  }

  /** A tiny expression graph: stored nonzeros, or a set-nonzeros node applied
      to a destination and a source expression. */
  datatype Expr = Leaf(values: seq<int>) | SetNz(node: Node, dest: Expr, src: Expr)

  /** The number of nonzeros an expression has. */
  function Size(e: Expr): nat {
    match e
    case Leaf(v) => |v|
    case SetNz(n, _, _) => n.ySize
  }

  /** Every node is valid and its operands have the sizes it was built for. */
  predicate WellFormed(e: Expr) {
    match e
    case Leaf(_) => true
    case SetNz(n, d, s) =>
      Valid(n) && WellFormed(d) && WellFormed(s) && Size(d) == n.ySize && Size(s) == |n.nz|
  }

  /** The nonzeros an expression evaluates to. */
  function Value(e: Expr): (r: seq<int>)
    requires WellFormed(e)
    ensures |r| == Size(e)
  {
    match e
    case Leaf(v) => v
    case SetNz(n, d, s) => Eval(n, Value(d), Value(s))
  }

  predicate IsSimpleAssignment(e: Expr) {
    e.SetNz? && IsAssignment(e.node)
  }

  /** The simplification rewrite: a plain assignment is replaced by its source
      operand, anything else is left as it is. */
  function Simplify(e: Expr): (r: Expr)
    requires WellFormed(e)
    ensures WellFormed(r) && Size(r) == Size(e) && Value(r) == Value(e)
    ensures r == e || (e.SetNz? && r == e.src)
    ensures IsSimpleAssignment(e) ==> r == e.src
    ensures !IsSimpleAssignment(e) ==> r == e
  {
    if IsSimpleAssignment(e) then
      AssignmentEvaluatesToSource(e.node, Value(e.dest), Value(e.src));
      e.src
    else e
  }

  /** A second simplification changes nothing unless the first one exposed a
      source operand that is itself a plain assignment. */
  lemma SimplifyTwice(e: Expr)
    requires WellFormed(e)
    ensures Simplify(Simplify(e)) == Simplify(e) <==> !(IsSimpleAssignment(e) && IsSimpleAssignment(e.src))
  {
    if IsSimpleAssignment(e) && IsSimpleAssignment(e.src) {
      assert Simplify(Simplify(e)) == e.src.src;
      assert e.src.src < e.src;
    }
  }
}
