/**
  The slice of the graph intermediate representation that the FC MKL-DNN
  pass reads and writes: graph-level boolean attributes, operator
  descriptors (type, ordered input variables, named attributes) and
  variable descriptors (name, shape). Nodes are addressed by stable
  integer handles into the `ops` and `vars` sequences.
*/
module Ir {

  type OpId = nat
  type VarId = nat

  /** A value of an operator attribute. */
  datatype Attr = BoolAttr(b: bool) | IntAttr(i: int) | StringAttr(s: string) | IntsAttr(xs: seq<int>)

  /** A variable (tensor) descriptor; `shape` is its list of dimensions. */
  datatype VarDesc = VarDesc(name: string, shape: seq<int>)

  /** An operator descriptor: its type, its input variables in the order of the node's input edges, and its attributes. */
  datatype OpDesc = OpDesc(opType: string, inputs: seq<VarId>, attrs: map<string, Attr>)
  {
    /** The descriptor after `SetAttr(name, v)`: `name` now maps to `v`, whatever it held before. */
    function WithAttr(name: string, v: Attr): OpDesc {
      this.(attrs := attrs[name := v])
    }
  }

  /** The abstract value of a graph. */
  datatype GraphState = GraphState(attrs: map<string, bool>, ops: seq<OpDesc>, vars: seq<VarDesc>)
  {
    /** Every input edge of every operator refers to an existing variable. */
    predicate Valid() {
      forall o, k :: 0 <= o < |ops| && 0 <= k < |ops[o].inputs| ==> ops[o].inputs[k] < |vars|
    }

    /** The graph after setting attribute `name` of operator `op` to `v`. */
    function SetOpAttr(op: OpId, name: string, v: Attr): GraphState
      requires op < |ops|
    {
      this.(ops := ops[op := ops[op].WithAttr(name, v)])
    }
  }

  /** Two graphs that differ at most in the attribute maps of their operators. */
  predicate SameStructure(s: GraphState, t: GraphState) {
    && s.attrs == t.attrs
    && s.vars == t.vars
    && |s.ops| == |t.ops|
    && forall o :: 0 <= o < |s.ops| ==> s.ops[o].opType == t.ops[o].opType && s.ops[o].inputs == t.ops[o].inputs
  }

  /** The graph, updated in place by passes. */
  class Graph {
    var attrs: map<string, bool>
    var ops: seq<OpDesc>
    var vars: seq<VarDesc>

    constructor (attrs: map<string, bool>, ops: seq<OpDesc>, vars: seq<VarDesc>)
      requires GraphState(attrs, ops, vars).Valid()
      ensures Valid() && State() == GraphState(attrs, ops, vars)
    {
      this.attrs := attrs;
      this.ops := ops;
      this.vars := vars;
    }

    function State(): GraphState
      reads this
    {
      GraphState(attrs, ops, vars)
    }

    predicate Valid()
      reads this
    {
      State().Valid()
    }

    /** Whether the graph-level attribute `name` is set. */
    predicate Has(name: string)
      reads this
    {
      name in attrs
    }

    /** The boolean value of a graph-level attribute that is set. */
    function GetBool(name: string): bool
      requires Has(name)
      reads this
    {
      attrs[name]
    }

    /** Set attribute `name` of operator `op` to `v`; nothing else in the graph changes. */
    method SetOpAttr(op: OpId, name: string, v: Attr)
      requires Valid() && op < |ops|
      modifies this`ops
      ensures Valid()
      ensures State() == old(State()).SetOpAttr(op, name, v)
    {
      ops := ops[op := ops[op].WithAttr(name, v)];
    }
  }
}
