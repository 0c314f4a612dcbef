/**
 The compiler from qualifier trees to a postfix list of expression items, where one item
 object stands in the list once per operator application and a mutable flag counts children.
 */
module FilterCompiler {
  import opened Decimal
  import opened FilterSyntax

  // ----- specification: the postfix list of nodes -----

  function Repeat(n: Node, k: nat): (r: seq<Node>)
    ensures |r| == k && forall i | 0 <= i < k :: r[i] == n
  {
    seq(k, _ => n)
  }

  /** How often a boolean node is emitted when `visible` of its children were counted. */
  function Copies(op: BoolOp, visible: nat): nat {
    if op == NotOp then visible else if visible == 0 then 0 else visible - 1
  }

  /** Whether n's own item occurs in its list, which is when n's parent counts it. */
  predicate Visible(n: Node) {
    match n
    case Unsupported(_) => false
    case BoolExpr(_, op, args) => Copies(op, VisibleCount(args)) > 0
    case _ => true
  }

  function VisibleCount(ns: seq<Node>): nat {
    if ns == [] then 0 else (if Visible(ns[0]) then 1 else 0) + VisibleCount(ns[1..])
  }

  function Items(n: Node): seq<Node> {
    match n
    case Unsupported(_) => []
    case BoolExpr(_, op, args) => ItemsAll(args) + Repeat(n, Copies(op, VisibleCount(args)))
    case _ => [n]
  }

  function ItemsAll(ns: seq<Node>): seq<Node> {
    if ns == [] then [] else Items(ns[0]) + ItemsAll(ns[1..])
  }

  /** The AND node made for conjuncts the planner left implicit. */
  const IMPLICIT_AND := BoolExpr(0, AndOp, [])

  function CompileQuals(quals: seq<Node>): seq<Node> {
    var items := ItemsAll(quals);
    if |quals| > 1 && items != [] then items + Repeat(IMPLICIT_AND, |quals| - 1) else items
  }

  lemma {:induction false} ItemsAllAppend(ns: seq<Node>, n: Node)
    ensures ItemsAll(ns + [n]) == ItemsAll(ns) + Items(n)
    ensures VisibleCount(ns + [n]) == VisibleCount(ns) + (if Visible(n) then 1 else 0)
  {
    if ns == [] {
      assert ns + [n] == [n];
      assert [n][1..] == [];
    } else {
      assert (ns + [n])[1..] == ns[1..] + [n];
      ItemsAllAppend(ns[1..], n);
    }
  }

  lemma TakeOneMore(ns: seq<Node>, i: nat)
    requires i < |ns|
    ensures ItemsAll(ns[..i + 1]) == ItemsAll(ns[..i]) + Items(ns[i])
    ensures VisibleCount(ns[..i + 1]) == VisibleCount(ns[..i]) + (if Visible(ns[i]) then 1 else 0)
    ensures Ids(ns[i]) <= IdsAll(ns)
    ensures AcyclicAll(ns) ==> Acyclic(ns[i])
  {
    FirstAndNext(ns, i);
    ItemsAllAppend(ns[..i], ns[i]);
    IdsAllSplit(ns, i);
  }

  lemma FirstAndNext<T>(s: seq<T>, i: nat)
    requires i < |s|
    ensures s[..i + 1] == s[..i] + [s[i]]
  {
  }

  // ----- the imperative compiler -----

  class ExpressionItem {
    const node: Node
    const parent: Option<nat>
    var processed: bool

    constructor (node: Node, parent: Option<nat>)
      ensures this.node == node && this.parent == parent && !processed
    {
      this.node, this.parent, this.processed := node, parent, false;
    }
  }

  function NodesOf(items: seq<ExpressionItem>): (r: seq<Node>)
    ensures |r| == |items| && forall i | 0 <= i < |items| :: r[i] == items[i].node
  {
    seq(|items|, i requires 0 <= i < |items| => items[i].node)
  }

  /** The distinct items of the list that a node at address `parent` would count. */
  ghost function Countable(items: seq<ExpressionItem>, parent: Option<nat>): set<ExpressionItem>
    reads items
  {
    set it | it in items && it.parent == parent && !it.processed
  }

  lemma CountedSoFar(items: seq<ExpressionItem>, todo: set<ExpressionItem>, k: nat)
    requires k < |items|
    ensures (set it | it in items[..k + 1] && it in todo)
         == (set it | it in items[..k] && it in todo) + (if items[k] in todo then {items[k]} else {})
  {
    assert items[..k + 1] == items[..k] + [items[k]];
  }

  /** Marks the unprocessed children of the node at address id and counts them. */
  method CountChildren(items: seq<ExpressionItem>, id: nat) returns (count: nat)
    modifies items
    ensures count == |old(Countable(items, Some(id)))|
    ensures Countable(items, Some(id)) == {}
    ensures forall it <- items :: it.parent != Some(id) ==> it.processed == old(it.processed)
  {
    ghost var todo := Countable(items, Some(id));
    count := 0;
    for k := 0 to |items|
      invariant count == |set it | it in items[..k] && it in todo|
      invariant forall it <- items :: it.processed == (old(it.processed) || (it in items[..k] && it in todo))
    {
      CountedSoFar(items, todo, k);
      var ei := items[k];
      if !ei.processed && ei.parent == Some(id) {
        ei.processed := true;
        count := count + 1;
      }
    }
    assert items[..|items|] == items;
    assert (set it | it in items && it in todo) == todo;
  }

  method AddExtraAndExpressionItems(items: seq<ExpressionItem>, extra: int) returns (result: seq<ExpressionItem>)
    ensures items == [] || extra < 1 ==> result == items
    ensures items != [] && extra >= 1 ==>
              && items <= result
              && NodesOf(result) == NodesOf(items) + Repeat(IMPLICIT_AND, extra)
              && fresh(result[|items|..])
              && forall it <- result :: it in items || it.parent == None
  {
    if items == [] || extra < 1 {
      return items;
    }
    var andItem := new ExpressionItem(IMPLICIT_AND, None);
    result := items;
    for i := 0 to extra
      invariant |result| == |items| + i && result[..|items|] == items
      invariant forall k | |items| <= k < |result| :: result[k] == andItem
    {
      result := result + [andItem];
    }
  }

  lemma ListConcat(a: seq<ExpressionItem>, b: seq<ExpressionItem>, parent: Option<nat>)
    requires forall it <- a :: it !in b
    ensures NodesOf(a + b) == NodesOf(a) + NodesOf(b)
    ensures |Countable(a + b, parent)| == |Countable(a, parent)| + |Countable(b, parent)|
  {
    assert Countable(a + b, parent) == Countable(a, parent) + Countable(b, parent);
  }

  /**
   Compiles the children of the node at address `parent` (None for the root list).
   The list read node by node is the specified postfix list, and the items the caller will
   count are exactly one per visible child, however often each item is aliased.
   */
  method MakeExpressionItemsList(quals: seq<Node>, parent: Option<nat>) returns (result: seq<ExpressionItem>)
    requires AcyclicAll(quals)
    requires parent.Some? ==> parent.value !in IdsAll(quals)
    ensures fresh(result)
    ensures NodesOf(result) == if parent.None? then CompileQuals(quals) else ItemsAll(quals)
    ensures forall it <- result :: ParentWithin(it, parent, IdsAll(quals))
    ensures parent.Some? ==> |Countable(result, parent)| == VisibleCount(quals)
    decreases quals, 0
  {
    result := [];
    for i := 0 to |quals|
      invariant fresh(result)
      invariant NodesOf(result) == ItemsAll(quals[..i])
      invariant forall it <- result :: ParentWithin(it, parent, IdsAll(quals))
      invariant |Countable(result, parent)| == VisibleCount(quals[..i])
    {
      TakeOneMore(quals, i);
      ghost var counted := Countable(result, parent);
      var items := CompileNode(quals[i], parent);
      assert Countable(result, parent) == counted;
      ListConcat(result, items, parent);
      result := result + items;
    }
    assert quals[..|quals|] == quals;
    if |quals| > 1 && parent.None? {
      ghost var before := result;
      result := AddExtraAndExpressionItems(result, |quals| - 1);
      assert NodesOf(before) == [] <==> before == [];
    }
  }

  ghost predicate ParentWithin(it: ExpressionItem, parent: Option<nat>, ids: set<nat>) {
    it.parent == parent || (it.parent.Some? && it.parent.value in ids)
  }

  /** One turn of the compiler's loop: the items that node adds to the list. */
  method CompileNode(node: Node, parent: Option<nat>) returns (items: seq<ExpressionItem>)
    requires Acyclic(node)
    requires parent.Some? ==> parent.value !in Ids(node)
    ensures fresh(items)
    ensures NodesOf(items) == Items(node)
    ensures forall it <- items :: ParentWithin(it, parent, Ids(node))
    ensures |Countable(items, parent)| == if Visible(node) then 1 else 0
    decreases node, 1
  {
    match node {
      case Unsupported(_) =>
        items := [];
      case BoolExpr(_, _, _) =>
        items := CompileBoolExpr(node, parent);
      case _ =>
        var item := new ExpressionItem(node, parent);
        items := [item];
        assert Countable(items, parent) == {item};
    }
  }

  method CompileBoolExpr(node: Node, parent: Option<nat>) returns (items: seq<ExpressionItem>)
    requires node.BoolExpr? && Acyclic(node)
    requires parent.Some? ==> parent.value !in Ids(node)
    ensures fresh(items)
    ensures NodesOf(items) == Items(node)
    ensures forall it <- items :: ParentWithin(it, parent, Ids(node))
    ensures |Countable(items, parent)| == if Visible(node) then 1 else 0
    decreases node, 0
  {
    var item := new ExpressionItem(node, parent);
    var inner := MakeExpressionItemsList(node.args, Some(node.id));
    var children := CountChildren(inner, node.id);
    var copies := Copies(node.op, children);
    items := AppendCopies(inner, item, copies);
    CopiesAppended(inner, item, copies, items, parent);
  }

  lemma CopiesAppended(inner: seq<ExpressionItem>, item: ExpressionItem, copies: nat,
                       items: seq<ExpressionItem>, parent: Option<nat>)
    requires |items| == |inner| + copies && inner <= items
    requires forall i | |inner| <= i < |items| :: items[i] == item
    requires forall it <- inner :: it.parent != parent
    requires item.parent == parent && !item.processed
    ensures NodesOf(items) == NodesOf(inner) + Repeat(item.node, copies)
    ensures forall it <- items :: it in inner || it == item
    ensures |Countable(items, parent)| == if copies > 0 then 1 else 0
  {
    if copies > 0 {
      assert items[|inner|] == item;
      assert Countable(items, parent) == {item};
    } else {
      assert Countable(items, parent) == {};
    }
  }

  method AppendCopies(list: seq<ExpressionItem>, item: ExpressionItem, k: nat) returns (result: seq<ExpressionItem>)
    ensures |result| == |list| + k && list <= result
    ensures forall i | |list| <= i < |result| :: result[i] == item
  {
    result := list;
    for i := 0 to k
      invariant |result| == |list| + i && list <= result
      invariant forall j | |list| <= j < |result| :: result[j] == item
    {
      result := result + [item];
    }
  }

  // ----- releasing the aliased list -----

  /** list_delete_ptr: drops the first occurrence, or nothing. */
  function DeletePtr(items: seq<ExpressionItem>, x: ExpressionItem): (r: seq<ExpressionItem>)
    ensures x in items ==> |r| == |items| - 1 && multiset(r) == multiset(items) - multiset{x}
    ensures x !in items ==> r == items
  {
    if items == [] then []
    else if items[0] == x then
      assert items == [x] + items[1..];
      items[1..]
    else
      assert items == [items[0]] + items[1..];
      [items[0]] + DeletePtr(items[1..], x)
  }

  lemma SameElements<T>(a: seq<T>, b: seq<T>, x: T)
    requires multiset(a) == multiset(b) - multiset{x}
    ensures forall y :: y != x ==> (y in a <==> y in b)
  {
    forall y | y != x
      ensures y in a <==> y in b
    {
      assert y in a <==> y in multiset(a);
      assert y in b <==> y in multiset(b);
    }
  }

  /** The inner loop: deletes occurrences of x until a deletion changes nothing. */
  method DeleteAll(items: seq<ExpressionItem>, x: ExpressionItem) returns (rest: seq<ExpressionItem>)
    ensures x !in rest && (x in items ==> |rest| < |items|)
    ensures forall y :: y != x ==> (y in rest <==> y in items)
  {
    rest := items;
    var previousLength := |rest| + 1;
    while rest != [] && previousLength > |rest|
      invariant |rest| < |items| || (rest == items && (x in items ==> previousLength > |rest|))
      invariant previousLength <= |rest| ==> x !in rest
      invariant forall y :: y != x ==> (y in rest <==> y in items)
      decreases |rest|, previousLength
    {
      previousLength := |rest|;
      ghost var before := rest;
      rest := DeletePtr(rest, x);
      if x in before {
        SameElements(rest, before, x);
      }
    }
  }

  /** Every distinct item is freed, and none twice, whatever the aliasing. */
  method FreeExpressionItemsList(items: seq<ExpressionItem>) returns (freed: seq<ExpressionItem>)
    ensures forall i, j | 0 <= i < j < |freed| :: freed[i] != freed[j]
    ensures forall it :: it in freed <==> it in items
  {
    freed := [];
    var rest := items;
    while rest != []
      invariant forall i, j | 0 <= i < j < |freed| :: freed[i] != freed[j]
      invariant forall it :: it in items <==> it in freed || it in rest
      invariant forall it <- freed :: it !in rest
      decreases |rest|
    {
      var item := rest[0];
      assert item in rest && item !in freed;
      freed := freed + [item];
      rest := DeleteAll(rest, item);
    }
  }
}
