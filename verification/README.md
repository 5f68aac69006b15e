# FC MKL-DNN pass: a Dafny model

This project models the FC MKL-DNN graph pass of PaddlePaddle
(`paddle/fluid/framework/ir/mkldnn/fc_mkldnn_pass.cc`). The pass walks
every match of the fully-connected (`fc`) pattern in a computation graph.
For each match, a handler checks two things:

- the graph-level `use_mkldnn` flag must be present and true;
- the shape of the `fc` operator's first input must have rank 2, 3 or 4, and a
  rank-4 shape must have height and width (dimensions 2 and 3) equal to 1.

If both checks pass, the handler sets the operator's `use_mkldnn` attribute
to true and increments the variant's found count. If either check fails,
the handler skips the match without changing anything.

The entry point `ApplyImpl` refuses a null graph. It then runs the pass
twice on the same graph: first the pattern variant with a residual input,
then the variant without. Each variant counts from zero and reports its
own count.

Files:

- `ir.dfy` (module `Ir`): the parts of the graph that the pass touches.
  - Graph-level boolean attributes.
  - Operator descriptors: type, inputs in the order of the node's input edges, and attributes.
  - Variable descriptors: name and shape.
  - The abstract value `GraphState`.
  - The class `Graph`, whose `ops` field is updated in place by `SetOpAttr`,
    and whose `Has` and `GetBool` are the graph-level attribute reads of
    the flag gate in `Handle`.
- `fc_mkldnn_pass.dfy` (module `FcMkldnnPass`): the pass.
  - `Supported`: the shape check.
  - `Accepts`: the full acceptance test for one match, the definition that
    `Handle`'s contract uses. `MkldnnEnabled` is its flag gate, and
    `FirstInputShape` is the shape read that both `Accepts` and `Handle` use.
  - `After` and `Found`: pure specification functions for the graph and the
    count after a sequence of matches.
  - `MarkedBy` and `AcceptedIndices`: independent reference definitions.
  - Lemmas relating the specification functions to the reference definitions.
  - The imperative `Handle`, `ApplyPass` and `ApplyImpl`. `Handle` is proved
    against `Accepts`; `ApplyPass` and `ApplyImpl` against `After` and `Found`.

The pattern detector is a parameter of type
`Detector = (GraphState, bool) -> seq<Match>`. It is deterministic and is
called on the current graph, so the second variant sees the marks that the
first variant made. The one thing assumed about it (`DetectorSound`) is
that each match it emits binds an existing operator and one of that
operator's inputs. That fact is what guarantees the operator has a first
input. The handler reads the shape of `fc->inputs[0]`, which is not
necessarily the variable bound to the pattern's `input` slot. `Match`
keeps both, and `FirstInputShape` reads the former.

## Model

| member | source | states |
|---|---|---|
| `FcMkldnnPass.Supported` | paddle/fluid/framework/ir/mkldnn/fc_mkldnn_pass.cc:61-67 | rank below 2 or above 4 is rejected; ranks 2 and 3 are accepted whatever their dimensions; rank 4 is accepted exactly when dims[2] == 1 and dims[3] == 1 |
| `FcMkldnnPass.AcceptsStable` | paddle/fluid/framework/ir/mkldnn/fc_mkldnn_pass.cc:49-73 | the decision reads only the graph flag and the first input's shape, so marks set by earlier matches never change how a later match is judged |
| `FcMkldnnPass.AcceptsIgnoresBoundInput` | paddle/fluid/framework/ir/mkldnn/fc_mkldnn_pass.cc:55-61 | the decision depends on the operator's first input edge only; rebinding the pattern's `input` slot to another input of the same operator does not change it |
| `Ir.Graph.SetOpAttr` | paddle/fluid/framework/ir/mkldnn/fc_mkldnn_pass.cc:73 | setting an operator attribute replaces that one entry of that one operator's attribute map; nothing else in the graph changes |
| `FcMkldnnPass.After` | paddle/fluid/framework/ir/mkldnn/fc_mkldnn_pass.cc:46-78 | processing matches changes only operator attribute maps: graph flags, variables, operator types and inputs are preserved, and every match stays well-formed |
| `FcMkldnnPass.Found` | paddle/fluid/framework/ir/mkldnn/fc_mkldnn_pass.cc:45-78 | the count starts at 0 and never exceeds the number of matches |
| `FcMkldnnPass.AfterMarksExactly` | paddle/fluid/framework/ir/mkldnn/fc_mkldnn_pass.cc:60-78 | after a run, an operator has `use_mkldnn = true` set exactly when some accepted match binds it; every other operator is unchanged |
| `FcMkldnnPass.FoundCountsAccepted` | paddle/fluid/framework/ir/mkldnn/fc_mkldnn_pass.cc:45-78 | the found count equals the number of matches that pass both the flag gate and the shape check |
| `FcMkldnnPass.DisabledIsNoOp` | paddle/fluid/framework/ir/mkldnn/fc_mkldnn_pass.cc:49-53 | if the graph lacks `use_mkldnn` or it is false, a run changes nothing and counts 0, whatever the shapes |
| `FcMkldnnPass.Idempotent` | paddle/fluid/framework/ir/mkldnn/fc_mkldnn_pass.cc:73-75 | re-running the same matches on the marked graph leaves the graph unchanged and reports the same count |
| `FcMkldnnPass.TwoVariants` | paddle/fluid/framework/ir/mkldnn/fc_mkldnn_pass.cc:93-94 | after the with-residual run and then the without-residual run, an operator is marked exactly when an accepted match of either variant binds it; each variant's count is its own number of accepted matches |
| `FcMkldnnPass.ScenarioTwoDimensional` | paddle/fluid/framework/ir/mkldnn/fc_mkldnn_pass.cc:49-75 | a [batch, features] input with the flag set is marked and counted once; with the flag unset, nothing changes and the count is 0 |
| `FcMkldnnPass.ScenarioFourDimensional` | paddle/fluid/framework/ir/mkldnn/fc_mkldnn_pass.cc:63-75 | with the flag set, [N, C, 1, 1] is marked and counted once, and [N, C, 3, 3] is left alone with count 0 |
| `FcMkldnnPass.ScenarioTwoOperators` | paddle/fluid/framework/ir/mkldnn/fc_mkldnn_pass.cc:73-78 | two qualifying operators in one run are both marked and the count is 2 |
| `FcMkldnnPass.Handle` | paddle/fluid/framework/ir/mkldnn/fc_mkldnn_pass.cc:46-76 | an accepted match sets `use_mkldnn = true` on exactly the matched operator and adds 1 to the count; a rejected match changes nothing and leaves the count unchanged |
| `FcMkldnnPass.ApplyPass` | paddle/fluid/framework/ir/mkldnn/fc_mkldnn_pass.cc:40-80 | one variant, counting from 0, leaves the graph as `After` and reports `Found`, which is the number of accepted matches |
| `FcMkldnnPass.ApplyImpl` | paddle/fluid/framework/ir/mkldnn/fc_mkldnn_pass.cc:87-95 | a null graph gives an InvalidArgument error; otherwise the with-residual variant runs first, and the without-residual variant's detector then sees the first variant's marks; both counts are reported |

## Left out

- The pattern detector (`GraphPatternDetector`) and the `FCMKLDNN` pattern are parameters here, not models. Their matching algorithm is not part of this model. The only assumption is that every emitted match binds an existing operator and one of its inputs.
- Logging is not modelled: `LogEnabledOps`, `VLOG` and `PrettyLogDetail`. This includes the message formatting in `LogEnabledOps`, which adds an `int` to a string literal.
- `Init` and `REGISTER_PASS` are not modelled.
- `AddStatis` is modelled only as the count each variant reports, one field of `Report` per variant. How the pass statistic combines the two calls (adding or replacing) is decided by `FusePassBase::AddStatis`, which is not part of this model.
- The weights, bias and output bindings are looked up by the handler but never used, so they are not modelled.
- Graph-level attributes are modelled as booleans only. Reading `use_mkldnn` when it holds a value of another type is not modelled.
- Operator descriptors are values inside the graph's `ops` sequence, not shared objects. Aliasing of one descriptor by several graph nodes is not modelled.
- The count is an unbounded `nat`. The source's `int` cannot overflow in practice, because the count never exceeds the number of matches.
