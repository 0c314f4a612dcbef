/**
 When does the compiled postfix list mean what the qualifiers mean? A stack machine runs the
 list; the shape condition below is met exactly by the trees all of whose subtrees are
 compiled soundly.
 */
module FilterMeaning {
  import opened Decimal
  import opened FilterSyntax
  import opened FilterCompiler

  function Join(op: BoolOp, a: Tri, b: Tri): Tri {
    if op == AndOp then And3(a, b) else Or3(a, b)
  }

  /** One postfix item on a value stack (top last); None is stack underflow. */
  function Step(n: Node, stack: seq<Tri>, val: Valuation): Option<seq<Tri>> {
    match n
    case Unsupported(_) => Some(stack)
    case BoolExpr(_, op, _) =>
      var k := |stack|;
      if op == NotOp then
        if k < 1 then None else Some(stack[..k - 1] + [Not3(stack[k - 1])])
      else if k < 2 then None
      else Some(stack[..k - 2] + [Join(op, stack[k - 2], stack[k - 1])])
    case _ => Some(stack + [val(n)])
  }

  function Run(items: seq<Node>, stack: seq<Tri>, val: Valuation): Option<seq<Tri>> {
    if items == [] then Some(stack)
    else match Step(items[0], stack, val)
      case None => None
      case Some(next) => Run(items[1..], next, val)
  }

  /** Running n's list from any stack pushes n's SQL value and nothing else. */
  ghost predicate Sound(n: Node) {
    forall stack, val :: Run(Items(n), stack, val) == Some(stack + [Eval(n, val)])
  }

  ghost predicate SoundThroughout(n: Node) {
    Sound(n) && (n.BoolExpr? ==> forall a <- n.args :: SoundThroughout(a))
  }

  /** A parent counts every node except an AND or OR of one argument. */
  predicate Counted(n: Node) {
    !(n.BoolExpr? && n.op != NotOp && |n.args| == 1)
  }

  /** The shape a caller can check beforehand. */
  predicate WellShaped(n: Node) {
    match n
    case Unsupported(_) => false
    case BoolExpr(_, NotOp, args) => |args| == 1 && Counted(args[0]) && WellShaped(args[0])
    case BoolExpr(_, _, args) =>
      && |args| >= 1
      && (forall a <- args :: WellShaped(a))
      && (|args| == 1 || forall a <- args :: Counted(a))
    case _ => true
  }

  // ----- running lists -----

  lemma {:induction false} RunConcat(a: seq<Node>, b: seq<Node>, stack: seq<Tri>, val: Valuation)
    ensures Run(a + b, stack, val) ==
            match Run(a, stack, val) case None => None case Some(mid) => Run(b, mid, val)
  {
    if a == [] {
      assert a + b == b;
    } else {
      assert (a + b)[1..] == a[1..] + b;
      if Step(a[0], stack, val).Some? {
        RunConcat(a[1..], b, Step(a[0], stack, val).value, val);
      }
    }
  }

  /** Sound children, run one after the other, leave their values in order. */
  lemma {:induction false} RunChildren(ns: seq<Node>, stack: seq<Tri>, val: Valuation)
    requires forall n <- ns :: Sound(n)
    ensures Run(ItemsAll(ns), stack, val) == Some(stack + EvalAll(ns, val))
  {
    if ns != [] {
      assert Sound(ns[0]);
      var v := [Eval(ns[0], val)];
      RunConcat(Items(ns[0]), ItemsAll(ns[1..]), stack, val);
      RunChildren(ns[1..], stack + v, val);
      assert stack + v + EvalAll(ns[1..], val) == stack + EvalAll(ns, val);
    } else {
      assert stack + EvalAll(ns, val) == stack;
    }
  }

  function Combine(op: BoolOp, vs: seq<Tri>): Tri {
    if op == AndOp then Conj(vs) else Disj(vs)
  }

  lemma CombineLastTwo(op: BoolOp, vs: seq<Tri>, a: Tri, b: Tri)
    ensures Combine(op, vs + [a, b]) == Combine(op, vs + [Join(op, a, b)])
  {
    assert forall v :: v in vs + [a, b] <==> v in vs || v == a || v == b;
    assert forall v :: v in vs + [Join(op, a, b)] <==> v in vs || v == Join(op, a, b);
  }

  lemma CombineOne(op: BoolOp, vs: seq<Tri>)
    requires |vs| == 1
    ensures vs == [Combine(op, vs)]
  {
    assert vs[0] in vs && forall v <- vs :: v == vs[0];
  }

  /** The last k + 1 values of a stack are combined by k copies of an AND or OR. */
  lemma {:induction false} RunConnective(n: Node, k: nat, stack: seq<Tri>, vs: seq<Tri>, val: Valuation)
    requires n.BoolExpr? && n.op != NotOp
    requires |vs| == k + 1
    ensures Run(Repeat(n, k), stack + vs, val) == Some(stack + [Combine(n.op, vs)])
  {
    if k == 0 {
      assert Repeat(n, k) == [];
      CombineOne(n.op, vs);
    } else {
      var joined := Join(n.op, vs[k - 1], vs[k]);
      var shorter := vs[..k - 1] + [joined];
      TopTwo(stack, vs, joined);
      RepeatTail(n, k);
      assert Step(n, stack + vs, val) == Some(stack + shorter);
      RunConnective(n, k - 1, stack, shorter, val);
      CombineLastTwo(n.op, vs[..k - 1], vs[k - 1], vs[k]);
    }
  }

  /** The top two values of a stack, and the stack with another value in their place. */
  lemma TopTwo(stack: seq<Tri>, vs: seq<Tri>, v: Tri)
    requires |vs| >= 2
    ensures var whole, k := stack + vs, |stack + vs|;
            && whole[..k - 2] + [v] == stack + (vs[..|vs| - 2] + [v])
            && whole[k - 2] == vs[|vs| - 2] && whole[k - 1] == vs[|vs| - 1]
    ensures vs == vs[..|vs| - 2] + [vs[|vs| - 2], vs[|vs| - 1]]
  {
  }

  lemma RepeatTail(n: Node, k: nat)
    requires k > 0
    ensures Repeat(n, k)[0] == n && Repeat(n, k)[1..] == Repeat(n, k - 1)
  {
  }

  /** k NOTs keep the stack's height. */
  lemma {:induction false} RunNots(n: Node, k: nat, stack: seq<Tri>, val: Valuation)
    requires n.BoolExpr? && n.op == NotOp
    requires k == 0 || stack != []
    ensures Run(Repeat(n, k), stack, val).Some?
    ensures |Run(Repeat(n, k), stack, val).value| == |stack|
    ensures k == 1 ==> Run(Repeat(n, k), stack, val).value == stack[..|stack| - 1] + [Not3(stack[|stack| - 1])]
  {
    if k > 0 {
      assert Repeat(n, k)[1..] == Repeat(n, k - 1);
      RunNots(n, k - 1, stack[..|stack| - 1] + [Not3(stack[|stack| - 1])], val);
    }
  }

  /** k copies of AND or OR lower the stack by k, or underflow. */
  lemma {:induction false} RunConnectiveHeight(n: Node, k: nat, stack: seq<Tri>, val: Valuation)
    requires n.BoolExpr? && n.op != NotOp
    requires k == 0 || k < |stack|
    ensures Run(Repeat(n, k), stack, val).Some?
    ensures |Run(Repeat(n, k), stack, val).value| == |stack| - k
  {
    if k > 0 {
      var lo := |stack| - 1 - k;
      RunConnective(n, k, stack[..lo], stack[lo..], val);
      assert stack[..lo] + stack[lo..] == stack;
    }
  }

  lemma {:induction false} VisibleBounds(ns: seq<Node>)
    ensures VisibleCount(ns) <= |ns|
    ensures VisibleCount(ns) == |ns| <==> forall n <- ns :: Visible(n)
  {
    if ns != [] {
      VisibleBounds(ns[1..]);
      assert ns == [ns[0]] + ns[1..];
      assert ns[0] in ns && forall n <- ns[1..] :: n in ns;
      assert forall n <- ns :: n == ns[0] || n in ns[1..];
    }
  }

  /** A well-shaped node's own item is in its list exactly when its shape says so. */
  lemma {:induction false} VisibleIffCounted(n: Node)
    requires WellShaped(n)
    ensures Visible(n) <==> Counted(n)
  {
    if n.BoolExpr? {
      forall a <- n.args
        ensures WellShaped(a) && (Visible(a) <==> Counted(a))
      {
        VisibleIffCounted(a);
      }
      VisibleBounds(n.args);
    }
  }

  // ----- well shaped implies sound -----

  lemma {:induction false} WellShapedIsSound(n: Node)
    requires WellShaped(n)
    ensures SoundThroughout(n)
  {
    if n.BoolExpr? {
      forall a <- n.args
        ensures SoundThroughout(a)
      {
        WellShapedIsSound(a);
      }
      forall stack, val
        ensures Run(Items(n), stack, val) == Some(stack + [Eval(n, val)])
      {
        RunBoolExpr(n, stack, val);
      }
    } else {
      forall stack, val
        ensures Run(Items(n), stack, val) == Some(stack + [Eval(n, val)])
      {
        assert Run([n], stack, val) == Run([], stack + [val(n)], val);
      }
    }
  }

  lemma RunBoolExpr(n: Node, stack: seq<Tri>, val: Valuation)
    requires n.BoolExpr? && WellShaped(n)
    requires forall a <- n.args :: Sound(a)
    ensures Run(Items(n), stack, val) == Some(stack + [Eval(n, val)])
  {
    var vs, k := EvalAll(n.args, val), Copies(n.op, VisibleCount(n.args));
    CopiesWhenWellShaped(n);
    RunChildren(n.args, stack, val);
    RunConcat(ItemsAll(n.args), Repeat(n, k), stack, val);
    RunOwnItems(n, k, stack, vs, val);
  }

  lemma RunOwnItems(n: Node, k: nat, stack: seq<Tri>, vs: seq<Tri>, val: Valuation)
    requires n.BoolExpr? && n.args != [] && vs == EvalAll(n.args, val) && (n.op == NotOp ==> |n.args| == 1)
    requires k == if n.op == NotOp then 1 else |n.args| - 1
    ensures Run(Repeat(n, k), stack + vs, val) == Some(stack + [Eval(n, val)])
  {
    if n.op == NotOp {
      RunNots(n, 1, stack + vs, val);
      assert (stack + vs)[..|stack + vs| - 1] == stack;
      assert (stack + vs)[|stack + vs| - 1] == Eval(n.args[0], val);
    } else {
      RunConnective(n, k, stack, vs, val);
    }
  }

  lemma CopiesWhenWellShaped(n: Node)
    requires n.BoolExpr? && WellShaped(n)
    ensures Copies(n.op, VisibleCount(n.args)) == if n.op == NotOp then 1 else |n.args| - 1
  {
    forall a <- n.args
      ensures Visible(a) <==> Counted(a)
    {
      VisibleIffCounted(a);
    }
    VisibleBounds(n.args);
  }

  // ----- sound throughout implies well shaped -----

  const ALL_TRUE: Valuation := _ => True

  lemma {:induction false} TwoValued(n: Node)
    requires WellShaped(n)
    ensures Eval(n, ALL_TRUE) != Unknown
  {
    if n.BoolExpr? {
      forall a <- n.args
        ensures Eval(a, ALL_TRUE) != Unknown
      {
        TwoValued(a);
      }
      EvalAllElements(n.args, ALL_TRUE);
    }
  }

  lemma {:induction false} EvalAllElements(ns: seq<Node>, val: Valuation)
    ensures forall i | 0 <= i < |ns| :: EvalAll(ns, val)[i] == Eval(ns[i], val)
  {
    if ns != [] {
      EvalAllElements(ns[1..], val);
    }
  }

  lemma {:induction false} SoundThroughoutIsWellShaped(n: Node)
    requires SoundThroughout(n)
    ensures WellShaped(n)
  {
    assert Run(Items(n), [], ALL_TRUE) == Some([] + [Eval(n, ALL_TRUE)]);
    if n.BoolExpr? {
      forall a <- n.args
        ensures WellShaped(a) && Sound(a) && (Visible(a) <==> Counted(a))
      {
        SoundThroughoutIsWellShaped(a);
        VisibleIffCounted(a);
      }
      VisibleBounds(n.args);
      assert [] + [Eval(n, ALL_TRUE)] == [Eval(n, ALL_TRUE)];
      ChildrenFitShape(n);
    }
  }

  /** The stack height, and for NOT the value, rule every other arity out. */
  lemma ChildrenFitShape(n: Node)
    requires n.BoolExpr? && (forall a <- n.args :: Sound(a) && WellShaped(a))
    requires Run(Items(n), [], ALL_TRUE) == Some([Eval(n, ALL_TRUE)])
    ensures n.op == NotOp ==> |n.args| == 1 && Visible(n.args[0])
    ensures n.op != NotOp ==> |n.args| == 1 || (|n.args| > 1 && VisibleCount(n.args) == |n.args|)
  {
    var c := VisibleCount(n.args);
    var vs := EvalAll(n.args, ALL_TRUE);
    VisibleBounds(n.args);
    RunChildren(n.args, [], ALL_TRUE);
    RunConcat(ItemsAll(n.args), Repeat(n, Copies(n.op, c)), [], ALL_TRUE);
    assert [] + vs == vs;
    if n.op == NotOp {
      RunNots(n, c, vs, ALL_TRUE);
      NotIsVisible(n, vs);
    } else {
      RunConnectiveHeight(n, Copies(n.op, c), vs, ALL_TRUE);
    }
  }

  lemma NotIsVisible(n: Node, vs: seq<Tri>)
    requires n.BoolExpr? && n.op == NotOp && |n.args| == 1 && WellShaped(n.args[0])
    requires vs == EvalAll(n.args, ALL_TRUE)
    requires Run(Repeat(n, VisibleCount(n.args)), vs, ALL_TRUE) == Some([Eval(n, ALL_TRUE)])
    ensures Visible(n.args[0])
  {
    TwoValued(n.args[0]);
    assert VisibleCount(n.args[1..]) == 0;
    assert Repeat(n, 0) == [];
    assert vs[0] == Eval(n.args[0], ALL_TRUE);
  }

  /**
   The compiler is right on every subtree exactly when the tree is well shaped: no dropped
   node, NOT over one counted argument, AND and OR over at least one, and a one-argument AND
   or OR only where nothing counts it.
   */
  lemma SoundIffWellShaped(n: Node)
    ensures SoundThroughout(n) <==> WellShaped(n)
  {
    if WellShaped(n) {
      WellShapedIsSound(n);
    }
    if SoundThroughout(n) {
      SoundThroughoutIsWellShaped(n);
    }
  }

  /** The compiled qualifier list leaves one value: SQL's AND of all the qualifiers. */
  lemma CompiledQualsMeanConjunction(quals: seq<Node>, stack: seq<Tri>, val: Valuation)
    requires quals != [] && forall q <- quals :: WellShaped(q)
    ensures Run(CompileQuals(quals), stack, val) == Some(stack + [Conj(EvalAll(quals, val))])
  {
    RunWellShaped(quals, stack, val);
    RunImplicitAnds(quals, stack, val);
  }

  lemma RunWellShaped(quals: seq<Node>, stack: seq<Tri>, val: Valuation)
    requires forall q <- quals :: WellShaped(q)
    ensures Run(ItemsAll(quals), stack, val) == Some(stack + EvalAll(quals, val))
  {
    forall q <- quals
      ensures Sound(q)
    {
      WellShapedIsSound(q);
    }
    RunChildren(quals, stack, val);
  }

  lemma RunImplicitAnds(quals: seq<Node>, stack: seq<Tri>, val: Valuation)
    requires quals != [] && Run(ItemsAll(quals), stack, val) == Some(stack + EvalAll(quals, val))
    ensures Run(CompileQuals(quals), stack, val) == Some(stack + [Conj(EvalAll(quals, val))])
  {
    var items, vs, k := ItemsAll(quals), EvalAll(quals, val), |quals| - 1;
    if k == 0 {
      CombineOne(AndOp, vs);
    } else {
      assert |stack + vs| != |stack|;
      assert items != [];
      RunConcat(items, Repeat(IMPLICIT_AND, k), stack, val);
      RunConnective(IMPLICIT_AND, k, stack, vs, val);
    }
  }

  /** What goes wrong outside the condition: NOT over a one-argument AND is lost, */
  lemma NotOverUncountedIsLost(x: Node)
    requires x.IsLeaf()
    ensures var n := BoolExpr(1, NotOp, [BoolExpr(2, AndOp, [x])]);
            Run(Items(n), [], ALL_TRUE) == Some([True]) && Eval(n, ALL_TRUE) == False
  {
    var inner := BoolExpr(2, AndOp, [x]);
    OneArgumentAnd(x);
    assert [inner][1..] == [];
    assert ItemsAll([]) == [] && VisibleCount([]) == 0;
    assert ItemsAll([inner]) == Items(inner) + [] == [x];
    assert VisibleCount([inner]) == 0;
    assert Items(BoolExpr(1, NotOp, [inner])) == [x];
  }

  lemma OneArgumentAnd(x: Node)
    requires x.IsLeaf()
    ensures var inner := BoolExpr(2, AndOp, [x]);
            Items(inner) == [x] && !Visible(inner) && Eval(inner, ALL_TRUE) == True
    ensures Run([x], [], ALL_TRUE) == Some([True])
  {
    assert [x][1..] == [] && [] + [True] == [True];
    assert ItemsAll([x]) == [x] && VisibleCount([x]) == 1;
    assert EvalAll([x], ALL_TRUE) == [True];
    assert Run([x], [], ALL_TRUE) == Run([], [True], ALL_TRUE);
  }

  /** an OR over a one-argument AND leaves two values, */
  lemma OrOverUncountedLeavesTwo(x: Node, y: Node)
    requires x.IsLeaf() && y.IsLeaf()
    ensures Run(Items(BoolExpr(1, OrOp, [BoolExpr(2, AndOp, [x]), y])), [], ALL_TRUE) == Some([True, True])
  {
    var inner := BoolExpr(2, AndOp, [x]);
    OneArgumentAnd(x);
    assert [inner, y][1..] == [y] && [y][1..] == [];
    assert ItemsAll([y]) == [y] && VisibleCount([y]) == 1;
    assert ItemsAll([inner, y]) == [x, y] && VisibleCount([inner, y]) == 1;
    assert Items(BoolExpr(1, OrOp, [inner, y])) == [x, y];
    assert [x, y][1..] == [y] && [] + [True] == [True] && [True] + [True] == [True, True];
    assert Run([x, y], [], ALL_TRUE) == Run([y], [True], ALL_TRUE) == Run([], [True, True], ALL_TRUE);
  }

  /** and a qualifier with an unknown tag leaves an AND without its second operand. */
  lemma DroppedQualUnderflows(x: Node, id: nat)
    requires x.IsLeaf()
    ensures Run(CompileQuals([x, Unsupported(id)]), [], ALL_TRUE) == None
  {
    var dropped := Unsupported(id);
    assert [x, dropped][1..] == [dropped] && [dropped][1..] == [];
    assert ItemsAll([dropped]) == [];
    assert ItemsAll([x, dropped]) == [x];
    assert CompileQuals([x, dropped]) == [x, IMPLICIT_AND];
    assert [x, IMPLICIT_AND][1..] == [IMPLICIT_AND] && [] + [True] == [True];
    assert Run([x, IMPLICIT_AND], [], ALL_TRUE) == Run([IMPLICIT_AND], [True], ALL_TRUE);
  }
}
