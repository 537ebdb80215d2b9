# CasADi set-nonzeros node family, modelled in Dafny

CasADi's `SetNonzeros` nodes are the scatter-assign operations of its MX
expression graph. A node takes a destination matrix `y` and a source matrix
`x`, both seen as their vectors of stored nonzeros, and an operation sequence
`nz` with one entry per source nonzero. It outputs `y` with `x[k]` written into
nonzero slot `nz[k]`, or added onto it, for k in order. The template flag
`ADD` selects adding over assigning. There are three variants:

- `SetNonzerosVector`, the general variant, for an arbitrary `nz`;
- `SetNonzerosSlice`, which also keeps a slice `s_` when `nz` is one
  arithmetic progression;
- `SetNonzerosSlice2`, which also keeps `inner_` and `outer_` when `nz` is a
  block pattern: every inner offset is added to every outer offset, and the
  outer offset varies slower.

The slice variants override only printing and code generation. They inherit
evaluation, so all three compute the same scatter.

The project has three modules, one file each:

- `slices.dfy`, module `Slices`: the slice descriptors. `Expand` and `Expand2`
  turn a descriptor into its index sequence, and lemmas state what that
  sequence holds. `ToSlice` and `ToSlice2` read a
  descriptor off an index sequence, and they are proved sound and complete.
  The `Slice` class is not part of this model. These are the model's own
  definitions: a slice `(start, stop, step)` with `step > 0` stands for
  start, start+step, ... strictly below stop.
- `scatter.dfy`, module `ScatterOps`: the sequential scatter on `seq<int>`.
  Two independent reference definitions describe its result slot by slot:
  the last write to a slot (`LastWrite`) and the sum of the values aimed at a
  slot (`SumAt`). When no index repeats, `Gather` is the inverse of an
  assigning scatter.
- `setnonzeros.dfy`, module `SetNonzeros`: the node itself, as the immutable
  datatype `Node(mode, kind, nz, ySize)`. The variant is
  `Kind = VectorKind | SliceKind(s) | Slice2Kind(p)`. The module also holds
  the constructors, with construction errors as a `Result`, plus the operation
  code, evaluation (a function, a loop method and an in-place method on an
  array), the in-place count, the plain-assignment test, and the simplification
  rewrite on a small expression datatype.

`SetNonzerosBase(nz)` only stores `nz`, with no check. CasADi's header
declares the operand-taking constructors `SetNonzerosVector(y, x, nz)`,
`SetNonzerosSlice(y, x, nz)` and `SetNonzerosSlice2(y, x, nz)` without
bodies. The model makes two modelling choices for them:

- Construction fails on a length mismatch between `nz` and the source, or on
  an index outside the destination.
- Repeated indices are accepted in both modes. Under assignment the last
  write wins, because the operation sequence is applied in order.

Values are mathematical integers standing in for the numeric `DMatrix`
entries. The operand sizes are node parameters, because the operand graph
nodes are not modelled.

## Model

| member | source | states |
|---|---|---|
| Slices.ExpandAt | symbolic/mx/setnonzeros.hpp:142-143 | element k of `Expand(s)`, the index sequence a kept slice `s_` stands for, is start + k*step |
| Slices.ExpandBounds | symbolic/mx/setnonzeros.hpp:142-143 | every element of a slice's expansion lies in [start, stop), and one more step past the last element would reach stop, so no progression value below stop is missed |
| Slices.ExpandShift | symbolic/mx/setnonzeros.hpp:142-143 | adding a constant to every element of a slice's expansion gives the expansion of the slice with start and stop moved by that constant |
| Slices.ExpandSameStop | symbolic/mx/setnonzeros.hpp:142-143 | any stop above the last element and at most one step beyond it describes the same indices |
| Slices.NestLength | symbolic/mx/setnonzeros.hpp:179-180 | a nested expansion has one block of inner values per outer value, so (outer count) * (inner count) indices |
| Slices.NestBlock | symbolic/mx/setnonzeros.hpp:179-180 | position a*w + b of a nested expansion (`Expand2` of a kept pair `inner_, outer_` is `Nest` of the two expansions), w being the inner count, holds outer value a plus inner value b: the outer value varies slower |
| Slices.ToSlice | symbolic/mx/setnonzeros.hpp:109-115 | when a slice is read off an index sequence, it has a positive step and expands back to exactly that sequence |
| Slices.ToSliceComplete | symbolic/mx/setnonzeros.hpp:109-115 | every expansion of a valid slice is recognised as a slice |
| Slices.ToSliceExact | symbolic/mx/setnonzeros.hpp:109-115 | a sequence is recognised as a slice if and only if some valid slice expands to it |
| Slices.ToSlice2 | symbolic/mx/setnonzeros.hpp:146-152 | when a nested slice is read off an index sequence, both parts have positive steps and it expands back to exactly that sequence |
| Slices.ToSlice2Complete | symbolic/mx/setnonzeros.hpp:146-152 | every expansion of a valid nested slice is recognised as a nested slice |
| Slices.ToSlice2Exact | symbolic/mx/setnonzeros.hpp:146-152 | a sequence is recognised as a nested slice if and only if some valid nested slice expands to it |
| Slices.SliceAsNested | symbolic/mx/setnonzeros.hpp:146-152 | a slice is the nested slice whose only inner offset is 0, so every slice pattern is also a nested-slice pattern |
| Slices.ContiguousIndicesDetected | symbolic/mx/setnonzeros.hpp:109-115 | the indices 1, 2, 3 are recognised as the slice (1, 4, 1) |
| ScatterOps.Scatter | symbolic/mx/setnonzeros.hpp:32-37 | the output has as many nonzeros as the destination |
| ScatterOps.ScatterAssign | symbolic/mx/setnonzeros.hpp:32-37 | in assign mode, a slot named in nz holds x[k] for the last k with nz[k] equal to that slot; every other slot keeps the destination value |
| ScatterOps.ScatterAdd | symbolic/mx/setnonzeros.hpp:60-65 | in add mode, every slot holds its destination value plus the sum of all x[k] with nz[k] equal to that slot, so repeated indices accumulate |
| ScatterOps.ScatterUnnamed | symbolic/mx/setnonzeros.hpp:32-37 | in either mode, a slot not named in nz keeps its destination value |
| ScatterOps.GatherAfterScatter | symbolic/mx/setnonzeros.hpp:55-56 | with distinct indices, reading the assigned output back at nz returns the source values in order |
| ScatterOps.AssignExample | symbolic/mx/setnonzeros.hpp:32-37 | assigning [1, 2] at slots 0 and 2 of [10, 20, 30, 40, 50] gives [1, 20, 2, 40, 50] |
| ScatterOps.AddExample | symbolic/mx/setnonzeros.hpp:60-65 | adding [1, 2] at slots 0 and 2 of [10, 20, 30, 40, 50] gives [11, 20, 32, 40, 50] |
| ScatterOps.RepeatedIndexExample | symbolic/mx/setnonzeros.hpp:55-56 | with both values aimed at slot 1, assigning keeps the later one and adding sums both |
| SetNonzeros.GetOp | symbolic/mx/setnonzeros.hpp:52-53 | the operation code is the add-nonzeros code exactly when the mode is Add, and the set-nonzeros code otherwise |
| SetNonzeros.ModeOf | symbolic/mx/setnonzeros.hpp:52-53 | every operation code is the code of exactly the mode read back from it |
| SetNonzeros.NewVector | symbolic/mx/setnonzeros.hpp:68-69 | construction of the general variant succeeds exactly when nz has one entry per source nonzero and every entry is a destination slot; a length mismatch is reported as such; on success the node is valid (`Valid`: every index is a destination slot and any kept descriptor expands to nz, see `DescribedBy`), general, keeps the mode and stores nz unchanged, as the base constructor at line 41 does |
| SetNonzeros.NewSlice | symbolic/mx/setnonzeros.hpp:114-115 | construction succeeds exactly when the general one does and some valid slice expands to nz; the stored slice expands to exactly nz, which is stored unchanged |
| SetNonzeros.NewSlice2 | symbolic/mx/setnonzeros.hpp:151-152 | construction succeeds exactly when the general one does and some valid nested slice expands to nz; the stored (inner, outer) pair expands to exactly nz, which is stored unchanged |
| SetNonzeros.Eval | symbolic/mx/setnonzeros.hpp:77-78 | numeric evaluation of any variant yields one value per destination nonzero |
| SetNonzeros.Slice2AgreesWithVector | symbolic/mx/setnonzeros.hpp:160-171 | an index sequence the nested-slice variant accepts is accepted by the general variant, and the two nodes give identical results on every pair of operands |
| SetNonzeros.VariantsAgree | symbolic/mx/setnonzeros.hpp:123-134 | an index sequence the slice variant accepts is accepted by the general and nested-slice variants too, and all three nodes give identical results on every pair of operands |
| SetNonzeros.SliceDescriptorEval | symbolic/mx/setnonzeros.hpp:160-171 | a slice or nested-slice node evaluates to the scatter along its descriptor's expansion |
| SetNonzeros.Evaluate | symbolic/mx/setnonzeros.hpp:86-88 | the loop that performs one write per source nonzero, in order, computes the node's scatter |
| SetNonzeros.NumInplace | symbolic/mx/setnonzeros.hpp:105-106 | one operand may share its buffer with the output, for every variant, since the slice variants do not override the count; EvaluateInPlace relies on this count |
| SetNonzeros.EvaluateInPlace | symbolic/mx/setnonzeros.hpp:105-106 | scattering into the destination operand's own buffer leaves exactly the node's result in it |
| SetNonzeros.AssignmentEvaluatesToSource | symbolic/mx/setnonzeros.hpp:99-100 | a node that is a plain assignment (`IsAssignment`: assign mode, and nz names every destination slot k at position k) evaluates to its source |
| SetNonzeros.AssignmentCharacterised | symbolic/mx/setnonzeros.hpp:99-100 | an assigning node is a plain assignment if and only if it evaluates to its source on every pair of operands |
| SetNonzeros.Simplify | symbolic/mx/setnonzeros.hpp:102-103 | simplification replaces a plain assignment by its source operand and leaves every other expression unchanged; it keeps well-formedness and size, and preserves the value |
| SetNonzeros.SimplifyTwice | symbolic/mx/setnonzeros.hpp:102-103 | a second simplification changes nothing, unless the first one exposed a source operand that is itself a plain assignment |

## Left out

- `evaluateMX` (symbolic/mx/setnonzeros.hpp:50) and `evaluateSX` (line 81): they build symbolic graph nodes and derivative nodes in infrastructure that is not part of this model. The integer scatter stands in for the shared numeric path.
- Forward and adjoint seeds of `evaluateD` (line 78): derivative propagation is not modelled; only the value output is.
- `propagateSparsity` (line 84): sparsity-pattern propagation works on bitsets and is not modelled; the model is about values only.
- `printPart` and `generateOperation` (lines 91-94, 137-140, 174-177): they write text through an output stream and a code generator that are not part of this model.
- `mapping` (line 97): it returns a `Matrix<int>`, whose sparse storage is not part of this model.
- `clone`, the destructors and the reference counting of `MXNode`: these are C++ memory management.
- Floating-point values: entries are mathematical integers.
- SimplifyTwice: unconditional idempotence of simplification is not claimed. The rewrite is one local step: if the exposed source operand is itself a plain assignment, a second step removes that node too. The lemma proves when a second step is a no-op, in both directions.
- NumInplace: only operand 0, the destination, is shown to be safe to alias with the output (EvaluateInPlace). The model does not state that the source operand is unsafe to alias.
