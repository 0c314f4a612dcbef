/**
 For the trees a planner builds, a compiled qualifier list means the conjunction on every
 valuation exactly when the compiler drops no node.
 */
module FilterCoverage {
  import opened Decimal
  import opened FilterSyntax
  import opened FilterCompiler
  import opened FilterMeaning

  /** NOT of one argument, AND and OR of two or more. */
  predicate Proper(n: Node) {
    n.BoolExpr? ==> (if n.op == NotOp then |n.args| == 1 else |n.args| >= 2) && forall a <- n.args :: Proper(a)
  }

  /** The nodes below the connectives, dropped ones included, from left to right. */
  function Leaves(n: Node): seq<Node> {
    if n.BoolExpr? then LeavesAll(n.args) else [n]
  }

  function LeavesAll(ns: seq<Node>): seq<Node> {
    if ns == [] then [] else Leaves(ns[0]) + LeavesAll(ns[1..])
  }

  predicate Distinct(s: seq<Node>) {
    forall i, j | 0 <= i < j < |s| :: s[i] != s[j]
  }

  predicate Handled(leaves: seq<Node>) {
    forall m <- leaves :: !m.Unsupported?
  }

  // ----- what values depend on -----

  lemma {:induction false} EvalAgrees(n: Node, v: Valuation, w: Valuation)
    requires forall m <- Leaves(n) :: v(m) == w(m)
    ensures Eval(n, v) == Eval(n, w)
  {
    if n.BoolExpr? {
      EvalAllAgrees(n.args, v, w);
      EvalAllElements(n.args, v);
      EvalAllElements(n.args, w);
      assert |n.args| == 1 ==> EvalAll(n.args, v)[0] == EvalAll(n.args, w)[0];
    }
  }

  lemma {:induction false} EvalAllAgrees(ns: seq<Node>, v: Valuation, w: Valuation)
    requires forall m <- LeavesAll(ns) :: v(m) == w(m)
    ensures EvalAll(ns, v) == EvalAll(ns, w)
  {
    if ns != [] {
      EvalAgrees(ns[0], v, w);
      EvalAllAgrees(ns[1..], v, w);
    }
  }

  lemma {:induction false} RunAgrees(items: seq<Node>, stack: seq<Tri>, v: Valuation, w: Valuation)
    requires forall m <- items :: m.IsLeaf() ==> v(m) == w(m)
    ensures Run(items, stack, v) == Run(items, stack, w)
  {
    if items != [] {
      assert items[0] in items && Step(items[0], stack, v) == Step(items[0], stack, w);
      if Step(items[0], stack, v).Some? {
        RunAgrees(items[1..], Step(items[0], stack, v).value, v, w);
      }
    }
  }

  lemma {:induction false} LeafIn(ns: seq<Node>, i: nat, m: Node)
    requires i < |ns| && m in Leaves(ns[i])
    ensures m in LeavesAll(ns)
  {
    if i > 0 {
      LeafIn(ns[1..], i - 1, m);
    }
  }

  lemma {:induction false} LeafOf(ns: seq<Node>, m: Node) returns (i: nat)
    requires m in LeavesAll(ns)
    ensures i < |ns| && m in Leaves(ns[i])
  {
    if m in Leaves(ns[0]) {
      i := 0;
    } else {
      i := LeafOf(ns[1..], m);
      i := i + 1;
    }
  }

  lemma DistinctParts(a: seq<Node>, b: seq<Node>)
    requires Distinct(a + b)
    ensures Distinct(a) && Distinct(b) && forall m <- a :: m !in b
  {
    var s := a + b;
    assert forall i | 0 <= i < |a| :: s[i] == a[i];
    assert forall j | 0 <= j < |b| :: s[|a| + j] == b[j];
  }

  /** Arguments of a tree without repeated leaves share none. */
  lemma {:induction false} LeavesApart(ns: seq<Node>, i: nat)
    requires Distinct(LeavesAll(ns)) && i < |ns|
    ensures Distinct(Leaves(ns[i]))
    ensures forall j | 0 <= j < |ns| && j != i :: forall m <- Leaves(ns[j]) :: m !in Leaves(ns[i])
  {
    var first, later := ns[0], ns[1..];
    DistinctParts(Leaves(first), LeavesAll(later));
    if i > 0 {
      LeavesApart(later, i - 1);
    }
    forall j, m | 0 <= j < |ns| && j != i && m in Leaves(ns[j])
      ensures m !in Leaves(ns[i])
    {
      if i == 0 {
        LeafIn(later, j - 1, m);
      } else if j == 0 && m in Leaves(ns[i]) {
        LeafIn(later, i - 1, m);
      } else if j > 0 {
        assert ns[j] == later[j - 1];
      }
    }
  }

  // ----- any classical value can be had -----

  function Truth(b: bool): Tri {
    if b then True else False
  }

  lemma CombineSame(op: BoolOp, vs: seq<Tri>, b: bool)
    requires vs != [] && forall v <- vs :: v == Truth(b)
    ensures Combine(op, vs) == Truth(b)
  {
    assert vs[0] in vs;
  }

  lemma {:induction false} Attain(n: Node, b: bool) returns (val: Valuation)
    requires Proper(n) && Distinct(Leaves(n))
    ensures Eval(n, val) == Truth(b)
    decreases n, 0
  {
    if !n.BoolExpr? {
      val := m => Truth(b);
    } else if n.op == NotOp {
      assert n.args[0] in n.args;
      LeavesApart(n.args, 0);
      val := Attain(n.args[0], !b);
    } else {
      val := AttainAll(n.args, b);
      EvalAllElements(n.args, val);
      CombineSame(n.op, EvalAll(n.args, val), b);
    }
  }

  lemma {:induction false} AttainAll(ns: seq<Node>, b: bool) returns (val: Valuation)
    requires (forall n <- ns :: Proper(n)) && Distinct(LeavesAll(ns))
    ensures forall i | 0 <= i < |ns| :: Eval(ns[i], val) == Truth(b)
    decreases ns, 1
  {
    val := m => Truth(b);
    if ns != [] {
      var first, later := ns[0], ns[1..];
      assert first in ns;
      DistinctParts(Leaves(first), LeavesAll(later));
      var x := Attain(first, b);
      var y := AttainAll(later, b);
      var leaves := Leaves(first);
      val := m => if m in leaves then x(m) else y(m);
      EvalAgrees(first, val, x);
      forall i | 1 <= i < |ns|
        ensures Eval(ns[i], val) == Truth(b)
      {
        assert ns[i] == later[i - 1];
        LeavesApart(ns, 0);
        EvalAgrees(ns[i], val, y);
      }
    }
  }

  // ----- every leaf matters -----

  /** Two valuations that differ at u only, and that the tree tells apart. */
  lemma {:induction false} Sense(n: Node, u: Node) returns (v: Valuation, w: Valuation)
    requires Proper(n) && Distinct(Leaves(n)) && u in Leaves(n)
    ensures forall m :: m != u ==> v(m) == w(m)
    ensures Eval(n, v) == True && Eval(n, w) == False
    decreases n, 0
  {
    if !n.BoolExpr? {
      v, w := m => True, m => if m == u then False else True;
    } else if n.op == NotOp {
      assert n.args[0] in n.args && LeavesAll(n.args) == Leaves(n.args[0]) + LeavesAll(n.args[1..]);
      assert n.args[1..] == [];
      LeavesApart(n.args, 0);
      w, v := Sense(n.args[0], u);
    } else {
      v, w := SenseAll(n.op, n.args, u);
    }
  }

  lemma {:induction false} SenseAll(op: BoolOp, ns: seq<Node>, u: Node) returns (v: Valuation, w: Valuation)
    requires op != NotOp && (forall n <- ns :: Proper(n)) && Distinct(LeavesAll(ns)) && u in LeavesAll(ns)
    ensures forall m :: m != u ==> v(m) == w(m)
    ensures Combine(op, EvalAll(ns, v)) == True && Combine(op, EvalAll(ns, w)) == False
    decreases ns, 1
  {
    var i := LeafOf(ns, u);
    assert ns[i] in ns;
    LeavesApart(ns, i);
    var x, y := Sense(ns[i], u);
    var rest := AttainAll(ns, op == AndOp);
    v, w := Beside(ns, i, x, rest), Beside(ns, i, y, rest);
    BesideMeans(ns, i, x, rest, op == AndOp);
    BesideMeans(ns, i, y, rest, op == AndOp);
    EvalAllElements(ns, v);
    EvalAllElements(ns, w);
    OneDecides(op, EvalAll(ns, v), i);
    OneDecides(op, EvalAll(ns, w), i);
  }

  /** One valuation for the leaves of argument i, another for all others. */
  function Beside(ns: seq<Node>, i: nat, x: Valuation, rest: Valuation): Valuation
    requires i < |ns|
  {
    m => if m in Leaves(ns[i]) then x(m) else rest(m)
  }

  lemma BesideMeans(ns: seq<Node>, i: nat, x: Valuation, rest: Valuation, b: bool)
    requires i < |ns| && Distinct(LeavesAll(ns)) && forall j | 0 <= j < |ns| :: Eval(ns[j], rest) == Truth(b)
    ensures Eval(ns[i], Beside(ns, i, x, rest)) == Eval(ns[i], x)
    ensures forall j | 0 <= j < |ns| && j != i :: Eval(ns[j], Beside(ns, i, x, rest)) == Truth(b)
  {
    LeavesApart(ns, i);
    EvalAgrees(ns[i], Beside(ns, i, x, rest), x);
    forall j | 0 <= j < |ns| && j != i
      ensures Eval(ns[j], Beside(ns, i, x, rest)) == Truth(b)
    {
      EvalAgrees(ns[j], Beside(ns, i, x, rest), rest);
    }
  }

  lemma OneDecides(op: BoolOp, vs: seq<Tri>, i: nat)
    requires op != NotOp && i < |vs| && (vs[i] == True || vs[i] == False)
    requires forall j | 0 <= j < |vs| && j != i :: vs[j] == Truth(op == AndOp)
    ensures Combine(op, vs) == vs[i]
  {
    assert vs[i] in vs;
  }

  // ----- the list -----

  lemma {:induction false} ProperIsWellShaped(n: Node)
    requires Proper(n) && Handled(Leaves(n))
    ensures WellShaped(n) && Counted(n)
  {
    if n.BoolExpr? {
      forall i | 0 <= i < |n.args|
        ensures WellShaped(n.args[i]) && Counted(n.args[i])
      {
        assert n.args[i] in n.args;
        forall m <- Leaves(n.args[i])
          ensures !m.Unsupported?
        {
          LeafIn(n.args, i, m);
        }
        ProperIsWellShaped(n.args[i]);
      }
    }
  }

  lemma {:induction false} ItemsAreHandled(n: Node)
    ensures forall m <- Items(n) :: !m.Unsupported?
  {
    if n.BoolExpr? {
      ItemsAllAreHandled(n.args);
    }
  }

  lemma {:induction false} ItemsAllAreHandled(ns: seq<Node>)
    ensures forall m <- ItemsAll(ns) :: !m.Unsupported?
  {
    if ns != [] {
      ItemsAreHandled(ns[0]);
      ItemsAllAreHandled(ns[1..]);
    }
  }

  /** The compiled list leaves the conjunction, on every valuation. */
  ghost predicate MeansConjunction(quals: seq<Node>) {
    forall val :: Run(CompileQuals(quals), [], val) == Some([Conj(EvalAll(quals, val))])
  }

  /**
   For proper qualifiers without a repeated leaf, the compiled list means their conjunction if
   and only if no node has a tag that the compiler drops.
   */
  lemma MeansConjunctionIffHandled(quals: seq<Node>)
    requires quals != [] && (forall q <- quals :: Proper(q)) && Distinct(LeavesAll(quals))
    ensures MeansConjunction(quals) <==> Handled(LeavesAll(quals))
  {
    if Handled(LeavesAll(quals)) {
      HandledMeansConjunction(quals);
    } else {
      var u :| u in LeavesAll(quals) && u.Unsupported?;
      var v, w := SenseAll(AndOp, quals, u);
      ItemsAllAreHandled(quals);
      assert forall m <- CompileQuals(quals) :: m in ItemsAll(quals) || m == IMPLICIT_AND;
      RunAgrees(CompileQuals(quals), [], v, w);
      assert [Conj(EvalAll(quals, v))][0] != [Conj(EvalAll(quals, w))][0];
    }
  }

  lemma HandledMeansConjunction(quals: seq<Node>)
    requires quals != [] && (forall q <- quals :: Proper(q)) && Handled(LeavesAll(quals))
    ensures MeansConjunction(quals)
  {
    forall i | 0 <= i < |quals|
      ensures WellShaped(quals[i])
    {
      assert quals[i] in quals;
      forall m <- Leaves(quals[i])
        ensures !m.Unsupported?
      {
        LeafIn(quals, i, m);
      }
      ProperIsWellShaped(quals[i]);
    }
    forall val
      ensures Run(CompileQuals(quals), [], val) == Some([Conj(EvalAll(quals, val))])
    {
      CompiledQualsMeanConjunction(quals, [], val);
      assert [] + [Conj(EvalAll(quals, val))] == [Conj(EvalAll(quals, val))];
    }
  }
}
