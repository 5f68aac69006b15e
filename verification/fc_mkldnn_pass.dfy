/**
  The FC MKL-DNN pass: for every match of the fully-connected pattern it
  decides whether the `fc` operator may run on the MKL-DNN backend and, if
  so, sets the operator's `use_mkldnn` attribute and counts it. The pass
  runs twice over the same graph, once for the pattern with a residual
  input and once for the pattern without.

  The pattern detector itself is a parameter: a deterministic function
  from the current graph and the variant flag to the sequence of matches
  it emits, in emission order.
*/
module FcMkldnnPass {
  import opened Ir

  const USE_MKLDNN := "use_mkldnn"
  const HEIGHT_AXIS := 2
  const WIDTH_AXIS := 3
  const NULL_GRAPH_MESSAGE := "Pointer to graph argument should not be NULL."

  datatype Error = InvalidArgument(message: string)
  datatype Result<T> = Ok(value: T) | Err(error: Error)

  /** A binding of the pattern's `fc` operator slot and its `input` variable slot. */
  datatype Match = Match(fc: OpId, input: VarId)

  /** The pattern detector: graph and with-residual flag to the matches, in emission order. */
  type Detector = (GraphState, bool) -> seq<Match>

  /** The counts each variant reports to the pass statistics, one per variant. */
  datatype Report = Report(withResidual: nat, withoutResidual: nat)

  /** A match binds an existing operator and one of that operator's inputs. */
  predicate WellFormed(s: GraphState, m: Match) {
    m.fc < |s.ops| && m.input in s.ops[m.fc].inputs
  }

  predicate AllWellFormed(s: GraphState, ms: seq<Match>) {
    forall i :: 0 <= i < |ms| ==> WellFormed(s, ms[i])
  }

  /** What the detector guarantees: on a valid graph it only emits well-formed matches. */
  ghost predicate DetectorSound(detect: Detector) {
    forall s: GraphState, withResidual: bool :: s.Valid() ==> AllWellFormed(s, detect(s, withResidual))
  }

  /** The shape check of the handler: rank 2 to 4, and for rank 4 unit height and width. */
  function Supported(dims: seq<int>): (ok: bool)
    ensures |dims| < 2 || |dims| > 4 ==> !ok
    ensures |dims| == 2 || |dims| == 3 ==> ok
    ensures |dims| == 4 ==> (ok <==> dims[2] == 1 && dims[3] == 1)
  {
    var dimNum := |dims|;
    var areDimsSupported := dimNum >= 2 && dimNum <= 4;
    var isSizeSupported := if dimNum == 4 then dims[WIDTH_AXIS] == 1 && dims[HEIGHT_AXIS] == 1 else true;
    areDimsSupported && isSizeSupported
  }

  /** The graph-level enablement flag: present and true. */
  predicate MkldnnEnabled(attrs: map<string, bool>) {
    USE_MKLDNN in attrs && attrs[USE_MKLDNN]
  }

  /** The shape of the operator's first input, which need not be the bound `input` variable. */
  function FirstInputShape(s: GraphState, fc: OpId): seq<int>
    requires s.Valid() && fc < |s.ops| && |s.ops[fc].inputs| > 0
  {
    s.vars[s.ops[fc].inputs[0]].shape
  }

  /** Whether the handler accepts match `m` on graph `s`. */
  predicate Accepts(s: GraphState, m: Match)
    requires s.Valid() && WellFormed(s, m)
  {
    MkldnnEnabled(s.attrs) && Supported(FirstInputShape(s, m.fc))
  }

  /** An operator descriptor after the handler marks it for MKL-DNN. */
  function Enabled(d: OpDesc): OpDesc {
    d.WithAttr(USE_MKLDNN, BoolAttr(true))
  }

  /** Marking an operator that is already marked changes nothing. */
  lemma EnabledIdempotent(d: OpDesc)
    ensures Enabled(Enabled(d)) == Enabled(d)
  {
  }

  /** The graph after the handler has processed the matches `ms` in order. */
  function After(s: GraphState, ms: seq<Match>): (t: GraphState)
    requires s.Valid() && AllWellFormed(s, ms)
    ensures t.Valid() && SameStructure(s, t)
    ensures AllWellFormed(t, ms)
    decreases |ms|
  {
    if ms == [] then s
    else
      var t := After(s, ms[..|ms| - 1]);
      var m := ms[|ms| - 1];
      assert WellFormed(s, m);
      if Accepts(t, m) then t.SetOpAttr(m.fc, USE_MKLDNN, BoolAttr(true)) else t
  }

  /** The found count after the handler has processed the matches `ms` in order. */
  function Found(s: GraphState, ms: seq<Match>): (n: nat)
    requires s.Valid() && AllWellFormed(s, ms)
    ensures n <= |ms|
    decreases |ms|
  {
    if ms == [] then 0
    else
      var p := ms[..|ms| - 1];
      Found(s, p) + (if Accepts(After(s, p), ms[|ms| - 1]) then 1 else 0)
  }

  /** Some accepted match of `ms`, judged on `s`, binds operator `o`. */
  predicate MarkedBy(s: GraphState, ms: seq<Match>, o: OpId)
    requires s.Valid() && AllWellFormed(s, ms)
  {
    exists i :: 0 <= i < |ms| && ms[i].fc == o && Accepts(s, ms[i])
  }

  /** The positions in `ms` of the matches accepted on `s`. */
  function AcceptedIndices(s: GraphState, ms: seq<Match>): set<nat>
    requires s.Valid() && AllWellFormed(s, ms)
  {
    set i: nat | i < |ms| && Accepts(s, ms[i])
  }

  /**
    The decision reads the operator's first input edge, not the variable
    bound to the pattern's `input` slot: rebinding that slot to any other
    input of the same operator does not change it.
  */
  lemma AcceptsIgnoresBoundInput(s: GraphState, m: Match, v: VarId)
    requires s.Valid() && WellFormed(s, m) && v in s.ops[m.fc].inputs
    ensures WellFormed(s, m.(input := v)) && Accepts(s, m.(input := v)) == Accepts(s, m)
  {
  }

  /** Only operator attributes change, so a match is judged the same before and after marking. */
  lemma AcceptsStable(s: GraphState, t: GraphState, m: Match)
    requires s.Valid() && WellFormed(s, m) && SameStructure(s, t)
    ensures t.Valid() && WellFormed(t, m) && Accepts(t, m) == Accepts(s, m)
  {
  }

  /** The last match of `ms` marks `o`, or an earlier one already does. */
  lemma MarkedBySnoc(s: GraphState, ms: seq<Match>, o: OpId)
    requires s.Valid() && AllWellFormed(s, ms) && ms != []
    ensures AllWellFormed(s, ms[..|ms| - 1]) && WellFormed(s, ms[|ms| - 1])
    ensures MarkedBy(s, ms, o) <==>
      MarkedBy(s, ms[..|ms| - 1], o) || (ms[|ms| - 1].fc == o && Accepts(s, ms[|ms| - 1]))
  {
  }

  /**
    Running the handler over `ms` marks exactly the operators bound by an
    accepted match and leaves every other operator as it was.
  */
  lemma {:induction false} AfterMarksExactly(s: GraphState, ms: seq<Match>)
    requires s.Valid() && AllWellFormed(s, ms)
    ensures forall o :: 0 <= o < |s.ops| ==>
      After(s, ms).ops[o] == if MarkedBy(s, ms, o) then Enabled(s.ops[o]) else s.ops[o]
    decreases |ms|
  {
    if ms != [] {
      var p, m := ms[..|ms| - 1], ms[|ms| - 1];
      assert WellFormed(s, m);
      AfterMarksExactly(s, p);
      AcceptsStable(s, After(s, p), m);
      forall o | 0 <= o < |s.ops|
        ensures After(s, ms).ops[o] == if MarkedBy(s, ms, o) then Enabled(s.ops[o]) else s.ops[o]
      {
        MarkedBySnoc(s, ms, o);
        EnabledIdempotent(s.ops[o]);
      }
    }
  }

  /** Appending one match adds its position to the accepted set exactly when it is accepted. */
  lemma AcceptedIndicesSnoc(s: GraphState, p: seq<Match>, m: Match)
    requires s.Valid() && AllWellFormed(s, p + [m])
    ensures AllWellFormed(s, p) && WellFormed(s, m)
    ensures AcceptedIndices(s, p + [m]) ==
      AcceptedIndices(s, p) + (if Accepts(s, m) then {|p|} else {})
  {
    var ms := p + [m];
    assert ms[|p|] == m;
    forall i | 0 <= i < |p|
      ensures ms[i] == p[i] && WellFormed(s, p[i])
    {
      assert WellFormed(s, ms[i]);
    }
  }

  /** The found count is the number of matches that pass both the flag and the shape check. */
  lemma {:induction false} FoundCountsAccepted(s: GraphState, ms: seq<Match>)
    requires s.Valid() && AllWellFormed(s, ms)
    ensures Found(s, ms) == |AcceptedIndices(s, ms)|
    decreases |ms|
  {
    if ms != [] {
      var p, m := ms[..|ms| - 1], ms[|ms| - 1];
      assert ms == p + [m];
      AcceptedIndicesSnoc(s, p, m);
      FoundCountsAccepted(s, p);
      AcceptsStable(s, After(s, p), m);
      assert |p| !in AcceptedIndices(s, p);
    }
  }

  /** Without the graph-level flag the handler changes nothing and counts nothing. */
  lemma {:induction false} DisabledIsNoOp(s: GraphState, ms: seq<Match>)
    requires s.Valid() && AllWellFormed(s, ms)
    requires !MkldnnEnabled(s.attrs)
    ensures After(s, ms) == s && Found(s, ms) == 0
    decreases |ms|
  {
    if ms != [] {
      DisabledIsNoOp(s, ms[..|ms| - 1]);
    }
  }

  lemma AcceptedIndicesStable(s: GraphState, t: GraphState, ms: seq<Match>)
    requires s.Valid() && AllWellFormed(s, ms) && SameStructure(s, t)
    ensures t.Valid() && AllWellFormed(t, ms)
    ensures AcceptedIndices(t, ms) == AcceptedIndices(s, ms)
    ensures forall o :: MarkedBy(t, ms, o) == MarkedBy(s, ms, o)
  {
    forall i | 0 <= i < |ms|
      ensures WellFormed(t, ms[i]) && Accepts(t, ms[i]) == Accepts(s, ms[i])
    {
      AcceptsStable(s, t, ms[i]);
    }
  }

  /**
    Setting the attribute is idempotent: running the same matches again on
    the marked graph changes nothing and reports the same count.
  */
  lemma Idempotent(s: GraphState, ms: seq<Match>)
    requires s.Valid() && AllWellFormed(s, ms)
    ensures After(After(s, ms), ms) == After(s, ms)
    ensures Found(After(s, ms), ms) == Found(s, ms)
  {
    var t := After(s, ms);
    AcceptedIndicesStable(s, t, ms);
    AfterMarksExactly(s, ms);
    AfterMarksExactly(t, ms);
    var u := After(t, ms);
    forall o | 0 <= o < |u.ops|
      ensures u.ops[o] == t.ops[o]
    {
      EnabledIdempotent(s.ops[o]);
    }
    FoundCountsAccepted(s, ms);
    FoundCountsAccepted(t, ms);
  }

  /**
    The two variants in sequence: the second detector run sees the first
    run's marks, yet every match is judged as on the original graph, so an
    operator ends up marked exactly when some accepted match of either
    variant binds it, and each count is that variant's number of accepted
    matches.
  */
  lemma TwoVariants(s: GraphState, m1: seq<Match>, m2: seq<Match>)
    requires s.Valid() && AllWellFormed(s, m1) && AllWellFormed(After(s, m1), m2)
    ensures AllWellFormed(s, m2)
    ensures forall o :: 0 <= o < |s.ops| ==>
      After(After(s, m1), m2).ops[o] ==
        if MarkedBy(s, m1, o) || MarkedBy(s, m2, o) then Enabled(s.ops[o]) else s.ops[o]
    ensures Found(s, m1) == |AcceptedIndices(s, m1)|
    ensures Found(After(s, m1), m2) == |AcceptedIndices(s, m2)|
  {
    var t := After(s, m1);
    forall i | 0 <= i < |m2|
      ensures WellFormed(s, m2[i])
    {
      assert WellFormed(t, m2[i]);
    }
    AcceptedIndicesStable(s, t, m2);
    FoundCountsAccepted(s, m1);
    FoundCountsAccepted(t, m2);
    AfterMarksExactly(s, m1);
    AfterMarksExactly(t, m2);
    var u := After(t, m2);
    forall o | 0 <= o < |s.ops|
      ensures u.ops[o] == if MarkedBy(s, m1, o) || MarkedBy(s, m2, o) then Enabled(s.ops[o]) else s.ops[o]
    {
      assert t.ops[o] == if MarkedBy(s, m1, o) then Enabled(s.ops[o]) else s.ops[o];
      assert u.ops[o] == if MarkedBy(s, m2, o) then Enabled(t.ops[o]) else t.ops[o];
      EnabledIdempotent(s.ops[o]);
    }
  }

  /** A graph with one `fc` operator reading variable 0, whose shape is `dims`. */
  function OneFc(attrs: map<string, bool>, dims: seq<int>): (s: GraphState)
    ensures s.Valid() && AllWellFormed(s, [Match(0, 0)])
  {
    GraphState(attrs, [OpDesc("fc", [0], map[])], [VarDesc("x", dims)])
  }

  /** A [batch, features] input with the flag set is marked and counted once; without the flag, nothing. */
  lemma ScenarioTwoDimensional(batch: int, features: int)
    ensures var s := OneFc(map[USE_MKLDNN := true], [batch, features]);
      Found(s, [Match(0, 0)]) == 1 && After(s, [Match(0, 0)]).ops[0].attrs[USE_MKLDNN] == BoolAttr(true)
    ensures var s := OneFc(map[], [batch, features]);
      Found(s, [Match(0, 0)]) == 0 && After(s, [Match(0, 0)]) == s
  {
  }

  /** With the flag set, [N, C, 1, 1] is accepted and [N, C, 3, 3] is rejected. */
  lemma ScenarioFourDimensional(n: int, c: int)
    ensures var s := OneFc(map[USE_MKLDNN := true], [n, c, 1, 1]);
      Found(s, [Match(0, 0)]) == 1 && After(s, [Match(0, 0)]).ops[0] == Enabled(s.ops[0])
    ensures var s := OneFc(map[USE_MKLDNN := true], [n, c, 3, 3]);
      Found(s, [Match(0, 0)]) == 0 && After(s, [Match(0, 0)]) == s
  {
  }

  /** Two independent qualifying operators in one run: both are marked and the count is 2. */
  lemma ScenarioTwoOperators(dims0: seq<int>, dims1: seq<int>)
    requires |dims0| == 2 && |dims1| == 3
    ensures var s := GraphState(map[USE_MKLDNN := true],
                                [OpDesc("fc", [0], map[]), OpDesc("fc", [1], map[])],
                                [VarDesc("x0", dims0), VarDesc("x1", dims1)]);
      var ms := [Match(0, 0), Match(1, 1)];
      s.Valid() && AllWellFormed(s, ms) &&
      Found(s, ms) == 2 && After(s, ms).ops == [Enabled(s.ops[0]), Enabled(s.ops[1])]
  {
  }

  /** One more match: `After` and `Found` on the next prefix, in terms of the current one. */
  lemma StepPrefix(s: GraphState, ms: seq<Match>, i: nat)
    requires s.Valid() && AllWellFormed(s, ms) && i < |ms|
    ensures AllWellFormed(s, ms[..i]) && AllWellFormed(s, ms[..i + 1])
    ensures WellFormed(After(s, ms[..i]), ms[i])
    ensures var t := After(s, ms[..i]);
      && After(s, ms[..i + 1]) == (if Accepts(t, ms[i]) then t.SetOpAttr(ms[i].fc, USE_MKLDNN, BoolAttr(true)) else t)
      && Found(s, ms[..i + 1]) == Found(s, ms[..i]) + (if Accepts(t, ms[i]) then 1 else 0)
  {
    assert ms[..i + 1][..i] == ms[..i];
    assert WellFormed(s, ms[i]);
  }

  /**
    The handler for one match: check the graph-level flag, then the shape of
    the operator's first input, then mark the operator and bump the count.
  */
  method Handle(g: Graph, m: Match, count: nat) returns (newCount: nat)
    requires g.Valid() && WellFormed(g.State(), m)
    modifies g`ops
    ensures g.Valid()
    ensures Accepts(old(g.State()), m) ==>
      g.State() == old(g.State()).SetOpAttr(m.fc, USE_MKLDNN, BoolAttr(true)) && newCount == count + 1
    ensures !Accepts(old(g.State()), m) ==> g.State() == old(g.State()) && newCount == count
  {
    if !(g.Has(USE_MKLDNN) && g.GetBool(USE_MKLDNN)) {
      return count;
    }
    var dims := FirstInputShape(g.State(), m.fc);
    if !Supported(dims) {
      return count;
    }
    g.SetOpAttr(m.fc, USE_MKLDNN, BoolAttr(true));
    newCount := count + 1;
  }

  /**
    One variant of the pass: run the detector for the variant and hand every
    match to the handler, counting from zero.
  */
  method ApplyPass(g: Graph, detect: Detector, withResidual: bool) returns (found: nat)
    requires g.Valid() && DetectorSound(detect)
    modifies g`ops
    ensures g.Valid()
    ensures var s := old(g.State()); var ms := detect(s, withResidual);
      && g.State() == After(s, ms)
      && found == Found(s, ms)
      && found == |AcceptedIndices(s, ms)|
  {
    ghost var s := g.State();
    var ms := detect(g.State(), withResidual);
    found := 0;
    var i := 0;
    while i < |ms|
      invariant 0 <= i <= |ms|
      invariant g.State() == After(s, ms[..i])
      invariant found == Found(s, ms[..i])
    {
      StepPrefix(s, ms, i);
      found := Handle(g, ms[i], found);
      i := i + 1;
    }
    assert ms[..|ms|] == ms;
    FoundCountsAccepted(s, ms);
  }

  /**
    The pass entry point: refuse a null graph, then run the with-residual
    variant and the without-residual variant, in that order, on the same graph.
  */
  method ApplyImpl(g: Graph?, detect: Detector) returns (r: Result<Report>)
    requires g != null ==> g.Valid()
    requires DetectorSound(detect)
    modifies g
    ensures g == null ==> r == Err(InvalidArgument(NULL_GRAPH_MESSAGE))
    ensures g != null ==>
      var s0 := old(g.State());
      var m1 := detect(s0, true);
      var s1 := After(s0, m1);
      var m2 := detect(s1, false);
      && r == Ok(Report(Found(s0, m1), Found(s1, m2)))
      && g.State() == After(s1, m2)
  {
    if g == null {
      return Err(InvalidArgument(NULL_GRAPH_MESSAGE));
    }
    var withResidual := ApplyPass(g, detect, true);
    var withoutResidual := ApplyPass(g, detect, false);
    r := Ok(Report(withResidual, withoutResidual));
  }
}
