/**
 End to end: the string that is pushed, parsed by the server and evaluated on any row, gives
 SQL's AND of the qualifiers; and exactly which leaves keep their meaning on the way.
 */
module FilterPushdown {
  import opened Decimal
  import opened FilterSyntax
  import opened FilterCompiler
  import opened FilterMeaning
  import opened FilterWire
  import Server = FilterParser

  // ----- what the server's tree means -----

  /** What a comparison operator of the server asks of its operands. */
  function Asked(op: Server.Operator): Option<Relation> {
    match op
    case LESS_THAN => Some(Less)
    case GREATER_THAN => Some(Greater)
    case LESS_THAN_OR_EQUAL => Some(AtMost)
    case GREATER_THAN_OR_EQUAL => Some(AtLeast)
    case EQUALS => Some(Equal)
    case NOT_EQUALS => Some(Different)
    case LIKE => Some(Like)
    case _ => None
  }

  predicate IsScalar(t: Server.Tree) {
    t.ColumnIndex? || t.ScalarOperand?
  }

  function Operand(t: Server.Tree): Token
    requires IsScalar(t)
  {
    if t.ColumnIndex? then Attr(t.index) else Scalar(t.typ, t.value)
  }

  /** A column IN a list: one of the values equals it. */
  function OneOf(column: int, typ: nat, data: seq<string>, row: Row): Tri {
    if exists v <- data :: row(Compare(Attr(column), Equal, Scalar(typ, v))) == True then True
    else if exists v <- data :: row(Compare(Attr(column), Equal, Scalar(typ, v))) == Unknown then Unknown
    else False
  }

  /** The value of a comparison; no operation on a column and true is the column itself. */
  function Compared(op: Server.Operator, left: Server.Tree, right: Server.Tree, row: Row): Option<Tri> {
    if op.NOOP? then
      if left.ColumnIndex? && right == Server.ScalarOperand(BOOLOID, "true") then Some(row(BoolColumn(left.index)))
      else None
    else if op.IN? then
      if left.ColumnIndex? && right.Collection? && Server.ElementType(right.typ).Some? then
        Some(OneOf(left.index, Server.ElementType(right.typ).value, right.data, row))
      else None
    else if Asked(op).Some? && IsScalar(left) && IsScalar(right) then
      Some(row(Compare(Operand(left), Asked(op).value, Operand(right))))
    else None
  }

  /** The tree's value on a row; None for a tree that asks nothing. */
  function Meaning(t: Server.Tree, row: Row): Option<Tri> {
    match t
    case Unary(NOT, child) =>
      (match Meaning(child, row) case Some(v) => Some(Not3(v)) case None => None)
    case Unary(op, child) =>
      if (op.IS_NULL? || op.IS_NOT_NULL?) && child.ColumnIndex? then Some(row(NullCheck(child.index, op.IS_NULL?)))
      else None
    case Binary(op, left, right) =>
      if op.AND? || op.OR? then
        match (Meaning(left, row), Meaning(right, row))
        case (Some(a), Some(b)) => Some(if op.AND? then And3(a, b) else Or3(a, b))
        case _ => None
      else Compared(op, left, right, row)
    case _ => None
  }

  /** What the server makes of a pushed string on a row. */
  function ServerValue(text: string, row: Row): Option<Tri> {
    match Server.Parse(text)
    case None => None
    case Some(t) => Meaning(t, row)
  }

  // ----- the server reads back what is rendered -----

  /** Tokens within the server's types and integers. */
  predicate Readable(t: Token) {
    match t
    case Attr(column) => -Server.MAX_INT - 1 <= column <= Server.MAX_INT
    case Scalar(typ, text) => Server.ValueType(typ) && |text| <= Server.MAX_INT
    case ListConst(typ, elems) => Server.ElementType(typ).Some? && forall e <- elems :: |e| <= Server.MAX_INT
    case Operator(code) => code <= Server.MAX_INT
    case Logical(kind) => kind <= Server.MAX_INT
  }

  lemma {:induction false} DigitsEndAfter(s: string, i: nat, n: nat)
    requires i <= n <= |s| && (forall j | i <= j < n :: IsDigit(s[j])) && NoLeadingDigit(s[n..])
    ensures Server.DigitsEnd(s, i) == n
    decreases n - i
  {
    if i < n {
      DigitsEndAfter(s, i + 1, n);
    } else if n < |s| {
      assert s[n..][0] == s[n];
    }
  }

  lemma JavaIntOfFormat(i: int)
    requires -Server.MAX_INT - 1 <= i <= Server.MAX_INT
    ensures Server.JavaInt(FormatInt(i)) == Some(i)
    ensures |FormatInt(i)| > 0
  {
    var n: nat := if i < 0 then -i else i;
    ReadNatOfDigits(n, "");
    assert Digits(n) + "" == Digits(n);
    if i < 0 {
      assert FormatInt(i)[1..] == Digits(n);
    } else {
      assert FormatInt(i)[0..] == Digits(n);
    }
  }

  lemma IntegerReadsBack(i: int, rest: string)
    requires -Server.MAX_INT - 1 <= i <= Server.MAX_INT && NoLeadingDigit(rest)
    ensures Server.ReadInteger(FormatInt(i) + rest) == Some((i, rest))
  {
    var f := FormatInt(i);
    var s, n := f + rest, |f|;
    var sign := if i < 0 then 1 else 0;
    JavaIntOfFormat(i);
    DigitsAreDigits(if i < 0 then -i else i);
    assert s[..n] == f && s[n..] == rest && s[0] == f[0];
    forall j | sign <= j < n
      ensures IsDigit(s[j])
    {
      assert s[j] == f[j] == Digits(if i < 0 then -i else i)[j - sign];
    }
    assert Server.SignLength(s) == sign;
    DigitsEndAfter(s, sign, n);
  }

  lemma CodeNumberReadsBack(n: nat, rest: string)
    requires n <= Server.MAX_INT && NoLeadingDigit(rest)
    ensures Server.ReadInteger(Digits(n) + rest) == Some((n, rest))
    ensures Digits(n) + rest != [] && IsDigit((Digits(n) + rest)[0])
  {
    IntegerReadsBack(n, rest);
    ReadNatOfDigits(n, rest);
  }

  lemma DataReadsBack(text: string, typ: nat, rest: string)
    requires |text| <= Server.MAX_INT && Server.ValueType(typ)
    ensures Server.ReadData(Sized(text) + rest, typ) == Some((text, rest))
    ensures (Sized(text) + rest)[0] == 's'
  {
    var s := Sized(text) + rest;
    var after := "d" + text + rest;
    assert s[0] == 's' && s[1..] == Digits(|text|) + after;
    CodeNumberReadsBack(|text|, after);
    assert after[0] == 'd' && after[1..1 + |text|] == text && after[1 + |text|..] == rest;
  }

  lemma {:induction false} ElementsReadBack(elems: seq<string>, typ: nat, rest: string, data: seq<string>)
    requires Server.ValueType(typ) && (forall e <- elems :: |e| <= Server.MAX_INT)
    requires rest != [] && AtToken(rest)
    ensures Server.ReadList(SizedAll(elems) + rest, typ, data) == Some((data + elems, rest))
  {
    if elems == [] {
      assert SizedAll(elems) + rest == rest && data + elems == data;
    } else {
      var first, later := elems[0], elems[1..];
      var s, tail := SizedAll(elems) + rest, SizedAll(later) + rest;
      Associate(Sized(first), SizedAll(later), rest);
      assert first in elems && elems == [first] + later;
      DataReadsBack(first, typ, tail);
      ListTakes(s, typ, data, first, tail);
      ElementsReadBack(later, typ, rest, data + [first]);
      assert data + [first] + later == data + elems;
    }
  }

  lemma ListTakes(s: string, typ: nat, data: seq<string>, value: string, rest: string)
    requires s != [] && s[0] == 's' && Server.ReadData(s, typ) == Some((value, rest))
    ensures Server.ReadList(s, typ, data) == Server.ReadList(rest, typ, data + [value])
  {
  }

  lemma ListStarts(elems: seq<string>, rest: string)
    requires AtToken(rest)
    ensures NoLeadingDigit(SizedAll(elems) + rest)
  {
    if elems != [] {
      assert SizedAll(elems)[0] == 's';
    }
  }

  lemma KnownTypes(typ: nat)
    ensures Server.ValueType(typ) ==> Server.KnownType(typ) && typ <= Server.MAX_INT
    ensures Server.ElementType(typ).Some? ==>
              Server.KnownType(typ) && typ <= Server.MAX_INT && Server.ValueType(Server.ElementType(typ).value)
    ensures Server.ElementType(typ).Some? ==> !Server.ValueType(typ)
  {
  }

  lemma TypeReadsBack(typ: nat, rest: string)
    requires Server.KnownType(typ) && typ <= Server.MAX_INT && NoLeadingDigit(rest)
    ensures Server.ReadType(Digits(typ) + rest) == Some((typ, rest))
  {
    CodeNumberReadsBack(typ, rest);
  }

  lemma ScalarIsRead(t: Token, rest: string)
    requires t.Scalar? && Readable(t)
    ensures Server.ReadToken(Render(t) + rest) == Some((t, rest))
  {
    var s, tail := Render(t) + rest, Sized(t.text) + rest;
    TailOf('c', Digits(t.typ), Sized(t.text), rest);
    KnownTypes(t.typ);
    DataReadsBack(t.text, t.typ, rest);
    TypeReadsBack(t.typ, tail);
  }

  lemma ListIsRead(t: Token, rest: string)
    requires t.ListConst? && Readable(t) && AtToken(rest) && rest != []
    ensures Server.ReadToken(Render(t) + rest) == Some((t, rest))
  {
    var s, tail := Render(t) + rest, SizedAll(t.elems) + rest;
    TailOf('m', Digits(t.typ), SizedAll(t.elems), rest);
    KnownTypes(t.typ);
    ListStarts(t.elems, rest);
    ElementsReadBack(t.elems, Server.ElementType(t.typ).value, rest, []);
    assert [] + t.elems == t.elems;
    TypeReadsBack(t.typ, tail);
  }

  lemma AttrIsRead(column: int, rest: string)
    requires Readable(Attr(column)) && AtToken(rest)
    ensures Server.ReadToken(Render(Attr(column)) + rest) == Some((Attr(column), rest))
  {
    Behind('a', FormatInt(column), rest);
    IntegerReadsBack(column, rest);
  }

  lemma CodeFollows(c: char, n: nat, rest: string)
    requires n <= Server.MAX_INT && AtToken(rest)
    ensures var s := [c] + Digits(n) + rest; s[0] == c && Server.ReadInteger(s[1..]) == Some((n, rest))
  {
    Behind(c, Digits(n), rest);
    CodeNumberReadsBack(n, rest);
  }

  lemma Behind(c: char, x: string, rest: string)
    ensures var s := [c] + x + rest; s[0] == c && s[1..] == x + rest
  {
  }

  lemma OperatorIsRead(n: nat, rest: string)
    requires n <= Server.MAX_INT && AtToken(rest)
    ensures Server.ReadToken(Render(Operator(n)) + rest) == Some((Operator(n), rest))
  {
    CodeFollows('o', n, rest);
  }

  lemma LogicalIsRead(n: nat, rest: string)
    requires n <= Server.MAX_INT && AtToken(rest)
    ensures Server.ReadToken(Render(Logical(n)) + rest) == Some((Logical(n), rest))
  {
    CodeFollows('l', n, rest);
  }

  /** A token is read back wherever another follows it, or, unless it is a list, the end. */
  lemma TokenIsRead(t: Token, rest: string)
    requires Readable(t) && AtToken(rest) && (t.ListConst? ==> rest != [])
    ensures Server.ReadToken(Render(t) + rest) == Some((t, rest))
    ensures AtToken(Render(t) + rest) && Render(t) + rest != []
  {
    match t {
      case Scalar(_, _) => ScalarIsRead(t, rest);
      case ListConst(_, _) => ListIsRead(t, rest);
      case Attr(column) => AttrIsRead(column, rest);
      case Operator(code) => OperatorIsRead(code, rest);
      case Logical(kind) => LogicalIsRead(kind, rest);
    }
  }

  function ApplyAll(ts: seq<Token>, stack: seq<Server.Tree>): Option<seq<Server.Tree>> {
    if ts == [] then Some(stack)
    else match Server.Apply(ts[0], stack)
      case None => None
      case Some(next) => ApplyAll(ts[1..], next)
  }

  /** All readable, and no list at the very end. */
  predicate ReadableAll(ts: seq<Token>) {
    (forall t <- ts :: Readable(t)) && (ts != [] ==> !ts[|ts| - 1].ListConst?)
  }

  /** What the parser makes of more text after some tokens were applied. */
  function Then(mid: Option<seq<Server.Tree>>, rest: string): Option<seq<Server.Tree>> {
    match mid case None => None case Some(stack) => Server.ParseFrom(rest, stack)
  }

  /** The server's loop does on the text what the tokens do one by one, whatever follows. */
  lemma {:induction false} TextIsApplied(ts: seq<Token>, rest: string, stack: seq<Server.Tree>)
    requires ReadableAll(ts) && AtToken(rest)
    ensures Server.ParseFrom(RenderAll(ts) + rest, stack) == Then(ApplyAll(ts, stack), rest)
  {
    if ts == [] {
      assert RenderAll(ts) + rest == rest;
    } else {
      var t, later := ts[0], ts[1..];
      assert t in ts && ts == [t] + later && forall u <- later :: u in ts;
      TextStarts(later, rest);
      Associate(Render(t), RenderAll(later), rest);
      TokenIsRead(t, RenderAll(later) + rest);
      var next := Server.Apply(t, stack);
      assert later != [] ==> later[|later| - 1] == ts[|ts| - 1];
      if next.Some? {
        TextIsApplied(later, rest, next.value);
      }
    }
  }

  lemma WholeTextIsApplied(ts: seq<Token>, stack: seq<Server.Tree>)
    requires ReadableAll(ts)
    ensures Server.ParseFrom(RenderAll(ts), stack) == ApplyAll(ts, stack)
  {
    TextIsApplied(ts, "", stack);
    assert RenderAll(ts) + "" == RenderAll(ts);
  }

  lemma TextStarts(ts: seq<Token>, rest: string)
    requires AtToken(rest)
    ensures AtToken(RenderAll(ts) + rest) && (ts != [] ==> RenderAll(ts) + rest != [])
  {
    if ts == [] {
      assert RenderAll(ts) + rest == rest;
    } else {
      LexRenderAll(ts[1..]);
      TokenReadsBack(ts[0], RenderAll(ts[1..]));
      assert (RenderAll(ts) + rest)[0] == RenderAll(ts)[0];
    }
  }

  lemma {:induction false} ApplyConcat(a: seq<Token>, b: seq<Token>, stack: seq<Server.Tree>)
    ensures ApplyAll(a + b, stack) == match ApplyAll(a, stack) case None => None case Some(mid) => ApplyAll(b, mid)
  {
    if a == [] {
      assert a + b == b;
    } else {
      assert (a + b)[1..] == a[1..] + b;
      if Server.Apply(a[0], stack).Some? {
        ApplyConcat(a[1..], b, Server.Apply(a[0], stack).value);
      }
    }
  }

  // ----- the tokens sent for each item -----

  /** The operand token that really goes out. */
  function SentToken(a: Arg, isList: bool): Token {
    if !a.ConstArg? then ArgToken(a)
    else if isList then ListConst(a.typ, if a.isnull || a.byval then [] else a.elems)
    else Scalar(a.typ, if a.isnull then "NULL" else a.text)
  }

  function SentTokens(n: Node): seq<Token> {
    match n
    case VarNode(_, attno, _) => [Attr(attno - 1), Scalar(BOOLOID, "true"), Operator(0)]
    case NullTest(_, isNullTest, attno, _) =>
      [Attr(attno - 1), Operator(if isNullTest then PXFOP_IS_NULL else PXFOP_IS_NOTNULL)]
    case OpExpr(_, opno, left, right) =>
      (match (right, PxfCode(opno))
       case (Some(r), Some(code)) => [SentToken(left, false), SentToken(r, false), Operator(code)]
       case _ => [])
    case ScalarArrayOp(_, _, _, left, arr) => [SentToken(left, true), SentToken(arr, true), Operator(PXFOP_IN)]
    case BoolExpr(_, op, _) => [Logical(BoolCode(op))]
    case Unsupported(_) => []
  }

  predicate ListOnLeft(n: Node) {
    n.ScalarArrayOp? && n.left.ConstArg?
  }

  lemma RenderThree(a: Token, b: Token, c: Token)
    ensures RenderAll([a, b, c]) == Render(a) + Render(b) + Render(c)
  {
    RenderTwo(b, c);
    assert [a, b, c][1..] == [b, c];
  }

  lemma RenderTwo(a: Token, b: Token)
    ensures RenderAll([a, b]) == Render(a) + Render(b)
    ensures RenderAll([a]) == Render(a)
  {
    assert [a, b][1..] == [b] && [b][1..] == [] && [a][1..] == [];
    assert RenderAll([b]) == Render(b) + "" == Render(b);
    assert RenderAll([a]) == Render(a) + "" == Render(a);
  }

  lemma ScalarTextIsToken(a: Arg)
    requires a.ConstArg? && ScalarConstToStr(a).Some?
    ensures var o := ScalarOperand(a.typ, ScalarConstToStr(a).value);
            OperandText(o, true) == OperandText(o, false) == Render(SentToken(a, false))
  {
  }

  /** A pushed comparison is binary, with a known operator and a column on one side. */
  lemma PushedOpExpr(n: Node)
    requires n.OpExpr? && ItemText(n).Pushed?
    ensures n.right.Some? && PxfCode(n.opno).Some?
    ensures (n.left.VarArg? && n.right.value.ConstArg?) || (n.left.ConstArg? && n.right.value.VarArg?)
  {
  }

  lemma PushedArrayOp(n: Node)
    requires n.ScalarArrayOp? && ItemText(n).Pushed?
    ensures (n.left.VarArg? && n.arr.ConstArg? && ListText(n.arr).Some?)
         || (n.left.ConstArg? && n.arr.VarArg? && ListText(n.left).Some?)
  {
  }

  /** A pushed item's text is the rendering of its tokens, the list-on-the-left case aside. */
  lemma ItemTextIsTokens(n: Node)
    requires ItemText(n).Pushed? && !ListOnLeft(n)
    ensures ItemText(n).text == RenderAll(SentTokens(n))
  {
    match n {
      case Unsupported(_) =>
      case BoolExpr(_, op, _) => RenderTwo(SentTokens(n)[0], SentTokens(n)[0]);
      case NullTest(_, _, _, _) => RenderTwo(SentTokens(n)[0], SentTokens(n)[1]);
      case VarNode(_, _, _) =>
        RenderThree(SentTokens(n)[0], SentTokens(n)[1], SentTokens(n)[2]);
      case OpExpr(_, opno, left, right) => OpExprTextIsTokens(n);
      case ScalarArrayOp(_, _, _, _, _) => ArrayOpTextIsTokens(n);
    }
  }

  lemma ArrayOpTextIsTokens(n: Node)
    requires n.ScalarArrayOp? && ItemText(n).Pushed? && !ListOnLeft(n)
    ensures ItemText(n).text == RenderAll(SentTokens(n))
  {
    PushedArrayOp(n);
    RenderThree(SentToken(n.left, true), SentToken(n.arr, true), Operator(PXFOP_IN));
  }

  lemma OpExprTextIsTokens(n: Node)
    requires n.OpExpr? && ItemText(n).Pushed?
    ensures ItemText(n).text == RenderAll(SentTokens(n))
  {
    PushedOpExpr(n);
    var r := n.right.value;
    if n.left.ConstArg? {
      ScalarTextIsToken(n.left);
    } else {
      ScalarTextIsToken(r);
    }
    RenderThree(SentToken(n.left, false), SentToken(r, false), Operator(PxfCode(n.opno).value));
  }

  function SentAll(nodes: seq<Node>): seq<Token> {
    if nodes == [] then [] else SentTokens(nodes[0]) + SentAll(nodes[1..])
  }

  lemma {:induction false} ListTextIsTokens(nodes: seq<Node>)
    requires ListOutcome(nodes).Pushed?
    requires forall n <- nodes :: !ListOnLeft(n)
    ensures ListOutcome(nodes).text == RenderAll(SentAll(nodes))
    ensures forall n <- nodes :: ItemText(n).Pushed?
  {
    if nodes != [] {
      ListTextIsTokens(nodes[1..]);
      ItemTextIsTokens(nodes[0]);
      RenderAllConcat(SentTokens(nodes[0]), SentAll(nodes[1..]));
      assert nodes == [nodes[0]] + nodes[1..];
    }
  }

  // ----- leaves -----

  /** A constant of a comparison is not NULL, and not a "char", which the server does not know. */
  predicate FaithfulConstant(a: Arg) {
    a.ConstArg? ==> !a.isnull && a.typ != CHAROID
  }

  /** Nothing a leaf says is lost on the way. */
  predicate Faithful(n: Node) {
    match n
    case OpExpr(_, opno, left, right) =>
      && FaithfulConstant(left) && (right.Some? ==> FaithfulConstant(right.value))
      && !(left.ConstArg? && RelationOf(opno) == Some(Like))
    case ScalarArrayOp(_, _, _, left, arr) =>
      !left.ConstArg? &&
      (arr.ConstArg? ==> !arr.isnull && ElementOid(arr.typ).Some? && (arr.byval ==> arr.elems == [] && !arr.nullElem))
    case _ => true
  }

  predicate FaithfulLeaves(n: Node) {
    if n.BoolExpr? then forall a <- n.args :: FaithfulLeaves(a) else Faithful(n)
  }

  /** An operand as the server's stack holds it. */
  function Held(t: Token): Server.Tree
    requires t.Attr? || t.Scalar? || t.ListConst?
  {
    match t
    case Attr(column) => Server.ColumnIndex(column)
    case Scalar(typ, text) => Server.ScalarOperand(typ, text)
    case ListConst(typ, elems) => Server.Collection(typ, elems)
  }

  lemma ApplyThree(a: Token, b: Token, code: nat, stack: seq<Server.Tree>)
    requires (a.Attr? || a.Scalar? || a.ListConst?) && (b.Attr? || b.Scalar? || b.ListConst?)
    requires code <= 7 || code == PXFOP_IN
    ensures ApplyAll([a, b, Operator(code)], stack) ==
            Some(stack + [Server.Normalized(Server.ComparisonOperator(code).value, Held(a), Held(b))])
  {
    var ts := [a, b, Operator(code)];
    var s1 := stack + [Held(a)];
    var s2 := s1 + [Held(b)];
    var last := stack + [Server.Normalized(Server.ComparisonOperator(code).value, Held(a), Held(b))];
    assert ts[1..] == [b, Operator(code)] && ts[1..][1..] == [Operator(code)] && [Operator(code)][1..] == [];
    assert s2[..|s2| - 2] == stack && s2[|s2| - 2] == Held(a) && s2[|s2| - 1] == Held(b);
    assert ApplyAll(ts, stack) == ApplyAll(ts[1..], s1) == ApplyAll([Operator(code)], s2);
    assert Server.Compared(code, s2) == Some(last);
    assert ApplyAll([Operator(code)], s2) == ApplyAll([], last);
  }

  function NullTree(column: int, wantNull: bool): Server.Tree {
    Server.Unary(if wantNull then Server.IS_NULL else Server.IS_NOT_NULL, Server.ColumnIndex(column))
  }

  lemma ApplyNullTest(column: int, wantNull: bool, stack: seq<Server.Tree>)
    ensures ApplyAll([Attr(column), Operator(if wantNull then PXFOP_IS_NULL else PXFOP_IS_NOTNULL)], stack) ==
            Some(stack + [NullTree(column, wantNull)])
  {
    var op := Operator(if wantNull then PXFOP_IS_NULL else PXFOP_IS_NOTNULL);
    var s1 := stack + [Server.ColumnIndex(column)];
    var last := stack + [NullTree(column, wantNull)];
    assert [Attr(column), op][1..] == [op] && [op][1..] == [] && s1[..|s1| - 1] == stack;
    assert ApplyAll([Attr(column), op], stack) == ApplyAll([op], s1) == ApplyAll([], last);
  }

  /** The tree a pushed leaf becomes. */
  function LeafTree(n: Node): Server.Tree
    requires n.IsLeaf() && ItemText(n).Pushed? && !ListOnLeft(n)
  {
    match n
    case VarNode(_, attno, _) =>
      Server.Binary(Server.NOOP, Server.ColumnIndex(attno - 1), Server.ScalarOperand(BOOLOID, "true"))
    case NullTest(_, isNullTest, attno, _) =>
      NullTree(attno - 1, isNullTest)
    case OpExpr(_, opno, left, right) =>
      PushedOpExpr(n);
      Server.Normalized(Server.ComparisonOperator(PxfCode(opno).value).value, Held(SentToken(left, false)),
          Held(SentToken(right.value, false)))
    case ScalarArrayOp(_, _, _, left, arr) =>
      PushedArrayOp(n);
      Server.Normalized(Server.IN, Held(SentToken(left, true)), Held(SentToken(arr, true)))
  }

  lemma LeafIsApplied(n: Node, stack: seq<Server.Tree>)
    requires n.IsLeaf() && ItemText(n).Pushed? && !ListOnLeft(n)
    ensures ApplyAll(SentTokens(n), stack) == Some(stack + [LeafTree(n)]) && !LeafTree(n).IsOperand()
  {
    match n {
      case VarNode(_, attno, _) =>
        ApplyThree(Attr(attno - 1), Scalar(BOOLOID, "true"), 0, stack);
      case NullTest(_, isNullTest, attno, _) =>
        ApplyNullTest(attno - 1, isNullTest, stack);
      case OpExpr(_, opno, left, right) =>
        PushedOpExpr(n);
        ApplyThree(SentToken(left, false), SentToken(right.value, false), PxfCode(opno).value, stack);
      case ScalarArrayOp(_, _, _, left, arr) =>
        PushedArrayOp(n);
        ApplyThree(SentToken(left, true), SentToken(arr, true), PXFOP_IN, stack);
    }
  }

  lemma MirrorIsTranspose(relation: Relation, code: nat)
    requires code == CodeOf(relation)
    ensures var op := Server.ComparisonOperator(code).value;
            Asked(op) == Some(relation) && Asked(Server.Transpose(op)) == Some(Mirror(relation))
  {
  }

  /** A pushed comparison by its column, its constant and what it asks of the column. */
  function ColumnOf(n: Node): (column: Server.Tree)
    requires n.OpExpr? && ItemText(n).Pushed?
    ensures column.ColumnIndex?
  {
    PushedOpExpr(n);
    Held(SentToken(if n.left.ConstArg? then n.right.value else n.left, false))
  }

  function ConstantOf(n: Node): (constant: Server.Tree)
    requires n.OpExpr? && ItemText(n).Pushed?
    ensures constant.ScalarOperand?
  {
    PushedOpExpr(n);
    Held(SentToken(if n.left.ConstArg? then n.left else n.right.value, false))
  }

  function AskedOf(n: Node): Relation
    requires n.OpExpr? && ItemText(n).Pushed?
  {
    ComparisonOutcome(n);
    var relation := RelationOf(n.opno).value;
    if n.left.ConstArg? then Mirror(relation) else relation
  }

  lemma ComparisonTree(n: Node) returns (op: Server.Operator)
    requires n.OpExpr? && ItemText(n).Pushed?
    ensures LeafTree(n) == Server.Binary(op, ColumnOf(n), ConstantOf(n)) && Asked(op) == Some(AskedOf(n))
  {
    PushedOpExpr(n);
    ComparisonOutcome(n);
    PxfCodeIsRelation(n.opno);
    var relation, code := RelationOf(n.opno).value, PxfCode(n.opno).value;
    MirrorIsTranspose(relation, code);
    op := Server.ComparisonOperator(code).value;
    if n.left.ConstArg? {
      op := Server.Transpose(op);
    }
  }

  /** The predicate a comparison becomes at the server. */
  function ServerAsks(n: Node): Pred
    requires n.OpExpr? && ItemText(n).Pushed?
  {
    Compare(Operand(ColumnOf(n)), AskedOf(n), Operand(ConstantOf(n)))
  }

  lemma ComparisonMeans(n: Node, row: Row)
    requires n.OpExpr? && ItemText(n).Pushed?
    ensures Meaning(LeafTree(n), row) == Some(row(ServerAsks(n)))
  {
    var op := ComparisonTree(n);
    RelationMeans(op, ColumnOf(n), ConstantOf(n), row);
  }

  lemma RelationMeans(op: Server.Operator, column: Server.Tree, constant: Server.Tree, row: Row)
    requires Asked(op).Some? && column.ColumnIndex? && constant.ScalarOperand?
    ensures Meaning(Server.Binary(op, column, constant), row) ==
            Some(row(Compare(Operand(column), Asked(op).value, Operand(constant))))
  {
  }

  lemma ComparisonLeafMeans(n: Node, row: Row)
    requires n.OpExpr? && ItemText(n).Pushed? && Faithful(n)
    ensures Meaning(LeafTree(n), row) == Some(LeafValue(n, row))
  {
    PushedOpExpr(n);
    ComparisonOutcome(n);
    ComparisonMeans(n, row);
  }

  /** The outcomes for the elements are those for the values of a list. */
  lemma {:induction false} ElementOutcomes(column: int, typ: nat, elems: seq<string>, row: Row, t: Tri)
    ensures t in Elementwise(Attr(column), Equal, typ, elems, row) <==>
            exists v <- elems :: row(Compare(Attr(column), Equal, Scalar(typ, v))) == t
  {
    if elems != [] {
      ElementOutcomes(column, typ, elems[1..], row, t);
      assert elems == [elems[0]] + elems[1..];
    }
  }

  lemma OneOfIsDisjunction(column: int, typ: nat, elems: seq<string>, row: Row)
    ensures OneOf(column, typ, elems, row) == Disj(Elementwise(Attr(column), Equal, typ, elems, row))
  {
    ElementOutcomes(column, typ, elems, row, True);
    ElementOutcomes(column, typ, elems, row, Unknown);
  }

  /** The values of a list as they go out. */
  function SentElements(arr: Arg): seq<CString>
    requires arr.ConstArg?
  {
    if arr.isnull || arr.byval then [] else arr.elems
  }

  lemma ArrayTree(n: Node)
    requires n.ScalarArrayOp? && ItemText(n).Pushed? && !ListOnLeft(n)
    ensures n.left.VarArg? && n.arr.ConstArg? && n.arr.typ != 1000
    ensures LeafTree(n) == Server.Binary(Server.IN, Server.ColumnIndex(n.left.attno - 1),
                                         Server.Collection(n.arr.typ, SentElements(n.arr)))
  {
    PushedArrayOp(n);
    ArrayOutcome(n);
  }

  lemma ListMeans(column: int, typ: nat, elems: seq<string>, row: Row)
    requires ElementOid(typ).Some?
    ensures Meaning(Server.Binary(Server.IN, Server.ColumnIndex(column), Server.Collection(typ, elems)), row) ==
            Some(Disj(Elementwise(Attr(column), Equal, ElementOid(typ).value, elems, row)))
  {
    OneOfIsDisjunction(column, ElementOid(typ).value, elems, row);
  }

  lemma ArrayMeans(n: Node, row: Row)
    requires n.ScalarArrayOp? && ItemText(n).Pushed? && !ListOnLeft(n) && ElementOid(n.arr.typ).Some?
    requires n.arr.ConstArg?
    ensures Meaning(LeafTree(n), row) ==
            Some(Disj(Elementwise(ArgToken(n.left), Equal, ElementOid(n.arr.typ).value, SentElements(n.arr), row)))
  {
    ArrayTree(n);
    ListMeans(n.left.attno - 1, n.arr.typ, SentElements(n.arr), row);
  }

  /** A faithful array comparison is the OR over the elements. */
  lemma ArrayLeafMeans(n: Node, row: Row)
    requires n.ScalarArrayOp? && ItemText(n).Pushed? && Faithful(n)
    ensures Meaning(LeafTree(n), row) == Some(LeafValue(n, row))
  {
    ArrayTree(n);
    ArrayOutcome(n);
    ArrayMeans(n, row);
    var vs := Elementwise(ArgToken(n.left), Equal, ElementOid(n.arr.typ).value, n.arr.elems, row);
    assert vs + [] == vs;
  }

  /** A faithful leaf's tree means what the leaf means. */
  lemma LeafMeans(n: Node, row: Row)
    requires n.IsLeaf() && ItemText(n).Pushed? && Faithful(n)
    ensures Meaning(LeafTree(n), row) == Some(LeafValue(n, row))
  {
    if n.OpExpr? {
      ComparisonLeafMeans(n, row);
    } else if n.ScalarArrayOp? {
      ArrayLeafMeans(n, row);
    }
  }

  lemma OpExprIsReadable(n: Node)
    requires n.OpExpr? && ItemText(n).Pushed? && FaithfulConstant(n.left) &&
             (n.right.Some? ==> FaithfulConstant(n.right.value))
    ensures ReadableAll(SentTokens(n))
  {
    PushedOpExpr(n);
  }

  /** Which tokens of a pushed item the server can read. */
  lemma SentIsReadable(n: Node)
    requires ItemText(n).Pushed? && (n.IsLeaf() ==> Faithful(n))
    ensures ReadableAll(SentTokens(n))
  {
    if n.OpExpr? {
      OpExprIsReadable(n);
    } else if n.ScalarArrayOp? {
      PushedArrayOp(n);
    }
  }

  // ----- the server's stack simulates the item machine -----

  /** The trees are operators whose values on the row are vs. */
  ghost predicate Means(stack: seq<Server.Tree>, vs: seq<Tri>, row: Row) {
    && |stack| == |vs|
    && forall i | 0 <= i < |stack| :: !stack[i].IsOperand() && Meaning(stack[i], row) == Some(vs[i])
  }

  /** What an item does to the values, its tokens do to the trees. */
  ghost predicate Simulates(after: Option<seq<Server.Tree>>, next: Option<seq<Tri>>, row: Row) {
    match next
    case None => after == None
    case Some(vs) => after.Some? && Means(after.value, vs, row)
  }

  lemma ConnectiveSimulated(n: Node, stack: seq<Server.Tree>, vs: seq<Tri>, row: Row)
    requires n.BoolExpr? && Means(stack, vs, row)
    ensures Simulates(Server.Connected(BoolCode(n.op), stack), Step(n, vs, Sql(row)), row)
  {
    var k := |vs|;
    if n.op == NotOp && k >= 1 {
      assert Means(stack[..k - 1] + [Server.Unary(Server.NOT, stack[k - 1])], vs[..k - 1] + [Not3(vs[k - 1])], row);
    } else if n.op != NotOp && k >= 2 {
      var op := if n.op == AndOp then Server.AND else Server.OR;
      var tree, v := Server.Binary(op, stack[k - 2], stack[k - 1]), Join(n.op, vs[k - 2], vs[k - 1]);
      assert Meaning(tree, row) == Some(v);
      assert Means(stack[..k - 2] + [tree], vs[..k - 2] + [v], row);
    }
  }

  lemma StepSimulated(n: Node, stack: seq<Server.Tree>, vs: seq<Tri>, row: Row)
    requires !n.Unsupported? && ItemText(n).Pushed? && (n.IsLeaf() ==> Faithful(n)) && Means(stack, vs, row)
    ensures Simulates(ApplyAll(SentTokens(n), stack), Step(n, vs, Sql(row)), row)
  {
    if n.IsLeaf() {
      LeafIsApplied(n, stack);
      LeafMeans(n, row);
      assert Means(stack + [LeafTree(n)], vs + [LeafValue(n, row)], row);
    } else {
      ConnectiveSimulated(n, stack, vs, row);
      ApplyOne(Logical(BoolCode(n.op)), stack);
    }
  }

  lemma ApplyOne(t: Token, stack: seq<Server.Tree>)
    ensures ApplyAll([t], stack) == Server.Apply(t, stack)
  {
    assert [t][1..] == [];
  }

  lemma {:induction false} RunSimulated(nodes: seq<Node>, stack: seq<Server.Tree>, vs: seq<Tri>, row: Row)
    requires forall n <- nodes :: !n.Unsupported? && ItemText(n).Pushed? && (n.IsLeaf() ==> Faithful(n))
    requires Means(stack, vs, row)
    ensures Simulates(ApplyAll(SentAll(nodes), stack), Run(nodes, vs, Sql(row)), row)
  {
    if nodes != [] {
      var n := nodes[0];
      assert n in nodes && forall m <- nodes[1..] :: m in nodes;
      StepSimulated(n, stack, vs, row);
      ApplyConcat(SentTokens(n), SentAll(nodes[1..]), stack);
      var next := Step(n, vs, Sql(row));
      if next.Some? {
        RunSimulated(nodes[1..], ApplyAll(SentTokens(n), stack).value, next.value, row);
      }
    }
  }

  lemma {:induction false} SentAllIsReadable(nodes: seq<Node>)
    requires forall n <- nodes :: ItemText(n).Pushed? && (n.IsLeaf() ==> Faithful(n))
    ensures ReadableAll(SentAll(nodes))
  {
    if nodes != [] {
      assert nodes[0] in nodes && forall m <- nodes[1..] :: m in nodes;
      SentIsReadable(nodes[0]);
      SentAllIsReadable(nodes[1..]);
      ReadableConcat(SentTokens(nodes[0]), SentAll(nodes[1..]));
    }
  }

  lemma ReadableConcat(a: seq<Token>, b: seq<Token>)
    requires ReadableAll(a) && ReadableAll(b)
    ensures ReadableAll(a + b)
  {
    assert forall t <- a + b :: t in a || t in b;
    if b == [] {
      assert a + b == a;
    } else {
      assert (a + b)[|a + b| - 1] == b[|b| - 1];
    }
  }

  lemma {:induction false} ItemsKeepLeaves(n: Node)
    requires FaithfulLeaves(n)
    ensures forall m <- Items(n) :: !m.Unsupported? && (m.IsLeaf() ==> Faithful(m))
  {
    if n.BoolExpr? {
      ItemsAllKeepLeaves(n.args);
    }
  }

  lemma {:induction false} ItemsAllKeepLeaves(ns: seq<Node>)
    requires forall n <- ns :: FaithfulLeaves(n)
    ensures forall m <- ItemsAll(ns) :: !m.Unsupported? && (m.IsLeaf() ==> Faithful(m))
  {
    if ns != [] {
      ItemsKeepLeaves(ns[0]);
      ItemsAllKeepLeaves(ns[1..]);
    }
  }

  /** A list of faithful items that leaves one value is a string that parses to that value. */
  lemma ListReceived(nodes: seq<Node>, v: Tri, row: Row)
    requires SerializeNodes(nodes).Pushed?
    requires forall n <- nodes :: !n.Unsupported? && (n.IsLeaf() ==> Faithful(n))
    requires Run(nodes, [], Sql(row)) == Some([v])
    ensures ServerValue(SerializeNodes(nodes).text, row) == Some(v)
  {
    ListTextIsTokens(nodes);
    SentAllIsReadable(nodes);
    WholeTextIsApplied(SentAll(nodes), []);
    RunSimulated(nodes, [], [], row);
  }

  /**
   Whenever a string is pushed for well-shaped qualifiers with faithful leaves, the server
   parses it, and on every row its tree has the value of SQL's AND of all the qualifiers.
   */
  lemma PushdownPreservesMeaning(quals: seq<Node>, row: Row)
    requires quals != [] && Pushable(quals)
    requires SerializeNodes(CompileQuals(quals)).Pushed?
    ensures ServerValue(SerializeNodes(CompileQuals(quals)).text, row) == Some(Conj(EvalAll(quals, Sql(row))))
  {
    var nodes := CompileQuals(quals);
    var v := Conj(EvalAll(quals, Sql(row)));
    ItemsAllKeepLeaves(quals);
    assert forall n <- nodes :: n in ItemsAll(quals) || n == IMPLICIT_AND;
    CompiledQualsMeanConjunction(quals, [], Sql(row));
    assert [] + [v] == [v];
    ListReceived(nodes, v, row);
  }

  predicate Pushable(quals: seq<Node>) {
    forall q <- quals :: WellShaped(q) && FaithfulLeaves(q)
  }

  /** The entry point: compiles the qualifiers, serializes the items and releases them. */
  method SerializePxfFilterQuals(quals: seq<Node>) returns (r: Outcome)
    requires AcyclicAll(quals)
    ensures r == SerializeNodes(CompileQuals(quals))
    ensures r.Pushed? ==> quals != []
    ensures r.Pushed? && Pushable(quals) ==>
              forall row :: ServerValue(r.text, row) == Some(Conj(EvalAll(quals, Sql(row))))
  {
    if quals == [] {
      return NotPushed;
    }
    var items := MakeExpressionItemsList(quals, None);
    r := SerializeFilterList(items);
    var _ := FreeExpressionItemsList(items);
    if r.Pushed? && Pushable(quals) {
      forall row
        ensures ServerValue(r.text, row) == Some(Conj(EvalAll(quals, Sql(row))))
      {
        PushdownPreservesMeaning(quals, row);
      }
    }
  }

  /** The server's end: its parser object, and the value of the tree on a row. */
  method ServerReceives(text: string, row: Row) returns (r: Option<Tri>)
    ensures r == ServerValue(text, row)
  {
    var parser := new Server.Parser();
    var tree := parser.ParseFilter(text);
    r := if tree.None? then None else Meaning(tree.value, row);
  }

  /** Both ends: None when nothing is pushed. */
  method PushAndReceive(quals: seq<Node>, row: Row) returns (pushed: bool, r: Option<Tri>)
    requires AcyclicAll(quals)
    ensures pushed == SerializeNodes(CompileQuals(quals)).Pushed?
    ensures pushed && Pushable(quals) ==> r == Some(Conj(EvalAll(quals, Sql(row))))
  {
    var outcome := SerializePxfFilterQuals(quals);
    pushed, r := outcome.Pushed?, None;
    if pushed {
      r := ServerReceives(outcome.text, row);
    }
  }

  // ----- exactly which leaves survive -----

  /** A list constant on the left goes out with the scalar code and stops the parser, wherever it is. */
  lemma ListOnLeftRejected(n: Node, rest: string, stack: seq<Server.Tree>)
    requires ListOnLeft(n) && ItemText(n).Pushed?
    ensures Server.ParseFrom(ItemText(n).text + rest, stack) == None
  {
    PushedArrayOp(n);
    var typ, elems := n.left.typ, SentToken(n.left, true).elems;
    var tail := RenderAll([Attr(n.arr.attno - 1), Operator(PXFOP_IN)]);
    ListOnLeftText(n);
    assert elems != [] ==> !Server.ValueType(typ);
    Associate("c" + Digits(typ) + SizedAll(elems), tail, rest);
    ListUnderScalarCode(typ, elems, tail + rest, stack);
  }

  lemma ListOnLeftText(n: Node)
    requires ListOnLeft(n) && ItemText(n).Pushed?
    ensures ItemText(n).text == "c" + Digits(n.left.typ) + SizedAll(SentToken(n.left, true).elems)
                              + RenderAll([Attr(n.arr.attno - 1), Operator(PXFOP_IN)])
    ensures var tail := RenderAll([Attr(n.arr.attno - 1), Operator(PXFOP_IN)]); tail != [] && tail[0] == 'a'
    ensures n.left.typ <= Server.MAX_INT
  {
    PushedArrayOp(n);
    var attr, op := Attr(n.arr.attno - 1), Operator(PXFOP_IN);
    RenderTwo(attr, op);
    RegroupEnd("c" + Digits(n.left.typ), SizedAll(SentToken(n.left, true).elems), Render(attr), Render(op));
  }

  lemma RegroupEnd(a: string, b: string, c: string, d: string)
    ensures a + b + c + d == a + b + (c + d)
  {
  }

  lemma ListUnderScalarCode(typ: nat, elems: seq<string>, tail: string, stack: seq<Server.Tree>)
    requires typ <= Server.MAX_INT && tail != [] && tail[0] == 'a' && (elems != [] ==> !Server.ValueType(typ))
    ensures Server.ParseFrom("c" + Digits(typ) + SizedAll(elems) + tail, stack) == None
  {
    var s, rest := "c" + Digits(typ) + SizedAll(elems) + tail, SizedAll(elems) + tail;
    TailOf('c', Digits(typ), SizedAll(elems), tail);
    ListStarts(elems, tail);
    CodeNumberReadsBack(typ, rest);
    if elems == [] {
      assert rest == tail;
    }
    assert Server.ReadData(rest, typ) == None;
    assert Server.ReadToken(s) == None;
  }

  lemma LeafTextParses(n: Node)
    requires n.IsLeaf() && ItemText(n).Pushed? && !ListOnLeft(n) && ReadableAll(SentTokens(n))
    ensures Server.Parse(ItemText(n).text) == Some(LeafTree(n))
  {
    ItemTextIsTokens(n);
    WholeTextIsApplied(SentTokens(n), []);
    LeafIsApplied(n, []);
    assert [] + [LeafTree(n)] == [LeafTree(n)];
  }


  /** A constant that the server will not take. */
  predicate Refused(t: Token) {
    match t
    case Scalar(typ, _) => typ <= Server.MAX_INT && !Server.ValueType(typ)
    case ListConst(typ, _) => typ <= Server.MAX_INT && Server.ElementType(typ).None?
    case _ => false
  }

  lemma TypeIsReadOrNot(typ: nat, rest: string)
    requires typ <= Server.MAX_INT && NoLeadingDigit(rest)
    ensures Server.ReadType(Digits(typ) + rest) == if Server.KnownType(typ) then Some((typ, rest)) else None
  {
    CodeNumberReadsBack(typ, rest);
  }

  lemma RefusedStops(t: Token, rest: string, stack: seq<Server.Tree>)
    requires Refused(t) && AtToken(rest)
    ensures Server.ParseFrom(Render(t) + rest, stack) == None
  {
    if t.Scalar? {
      TailOf('c', Digits(t.typ), Sized(t.text), rest);
      TypeIsReadOrNot(t.typ, Sized(t.text) + rest);
    } else {
      TailOf('m', Digits(t.typ), SizedAll(t.elems), rest);
      ListStarts(t.elems, rest);
      TypeIsReadOrNot(t.typ, SizedAll(t.elems) + rest);
    }
    assert Server.ReadToken(Render(t) + rest) == None;
  }

  lemma AttrThenRefused(a: Token, t: Token, rest: string, stack: seq<Server.Tree>)
    requires a.Attr? && Readable(a) && Refused(t) && AtToken(rest)
    ensures Server.ParseFrom(Render(a) + (Render(t) + rest), stack) == None
  {
    TokenReadsBack(t, rest);
    TokenIsRead(a, Render(t) + rest);
    RefusedStops(t, rest, stack + [Server.ColumnIndex(a.column)]);
  }

  lemma RefusedFails(a: Token, b: Token, op: Token, rest: string, stack: seq<Server.Tree>)
    requires op.Operator? && (Refused(a) || (a.Attr? && Readable(a) && Refused(b))) && AtToken(rest)
    ensures Server.ParseFrom(RenderAll([a, b, op]) + rest, stack) == None
  {
    var tail := Render(op) + rest;
    RenderThree(a, b, op);
    FourParts(Render(a), Render(b), Render(op), rest);
    TokenReadsBack(op, rest);
    TokenReadsBack(b, tail);
    if Refused(a) {
      RefusedStops(a, Render(b) + tail, stack);
    } else {
      AttrThenRefused(a, b, tail, stack);
    }
  }

  lemma FourParts(a: string, b: string, c: string, d: string)
    ensures a + b + c + d == a + (b + (c + d))
  {
  }

  /** The tokens of a pushed comparison are readable, or one of its constants is refused. */
  lemma ReadableOrRefused(n: Node)
    requires (n.OpExpr? || n.ScalarArrayOp?) && ItemText(n).Pushed? && !ListOnLeft(n) && !ReadableAll(SentTokens(n))
    ensures var ts := SentTokens(n);
            |ts| == 3 && ts[2].Operator? && (Refused(ts[0]) || (ts[0].Attr? && Readable(ts[0]) && Refused(ts[1])))
  {
    if n.OpExpr? {
      OpExprRefused(n);
    } else {
      PushedArrayOp(n);
    }
  }

  lemma OpExprRefused(n: Node)
    requires n.OpExpr? && ItemText(n).Pushed? && !ReadableAll(SentTokens(n))
    ensures var ts := SentTokens(n);
            |ts| == 3 && ts[2].Operator? && (Refused(ts[0]) || (ts[0].Attr? && Readable(ts[0]) && Refused(ts[1])))
  {
    PushedOpExpr(n);
  }

  /** A constant of a type the server does not take stops the parser, wherever it is. */
  lemma UnreadableFails(n: Node, rest: string, stack: seq<Server.Tree>)
    requires (n.OpExpr? || n.ScalarArrayOp?) && ItemText(n).Pushed? && !ListOnLeft(n) && !ReadableAll(SentTokens(n))
    requires AtToken(rest)
    ensures Server.ParseFrom(ItemText(n).text + rest, stack) == None
  {
    var ts := SentTokens(n);
    ItemTextIsTokens(n);
    ReadableOrRefused(n);
    assert ts == [ts[0], ts[1], ts[2]];
    RefusedFails(ts[0], ts[1], ts[2], rest, stack);
  }

  /** A leaf that the server's parser does not get past. */
  predicate Stopping(n: Node) {
    n.IsLeaf() && (ListOnLeft(n) || !ReadableAll(SentTokens(n)))
  }

  lemma StoppingStops(n: Node, rest: string, stack: seq<Server.Tree>)
    requires Stopping(n) && ItemText(n).Pushed? && AtToken(rest)
    ensures Server.ParseFrom(ItemText(n).text + rest, stack) == None
  {
    if ListOnLeft(n) {
      ListOnLeftRejected(n, rest, stack);
    } else {
      UnreadableFails(n, rest, stack);
    }
  }

  lemma StoppingText(n: Node)
    requires Stopping(n) && ItemText(n).Pushed?
    ensures Server.Parse(ItemText(n).text) == None
  {
    StoppingStops(n, "", []);
    assert ItemText(n).text + "" == ItemText(n).text;
  }

  lemma {:induction false} OutcomeStarts(nodes: seq<Node>)
    requires ListOutcome(nodes).Pushed?
    ensures AtToken(ListOutcome(nodes).text)
  {
    if nodes != [] {
      OutcomeStarts(nodes[1..]);
      ItemStarts(nodes[0], ListOutcome(nodes[1..]).text);
    }
  }

  lemma ItemStarts(n: Node, rest: string)
    requires ItemText(n).Pushed? && AtToken(rest)
    ensures AtToken(ItemText(n).text + rest)
  {
    if ListOnLeft(n) {
      ListOnLeftText(n);
    } else {
      ItemTextIsTokens(n);
      TextStarts(SentTokens(n), rest);
    }
  }

  /** One such leaf anywhere in a list makes the server reject the whole string. */
  lemma {:induction false} ListStops(nodes: seq<Node>, stack: seq<Server.Tree>)
    requires ListOutcome(nodes).Pushed? && exists n <- nodes :: Stopping(n)
    ensures Server.ParseFrom(ListOutcome(nodes).text, stack) == None
  {
    var n, later := nodes[0], nodes[1..];
    var rest := ListOutcome(later).text;
    OutcomeStarts(later);
    assert nodes == [n] + later && ListOutcome(nodes).text == ItemText(n).text + rest;
    if Stopping(n) {
      StoppingStops(n, rest, stack);
    } else {
      var mid := ApplyAll(SentTokens(n), stack);
      OtherItemIsApplied(n, rest, stack, mid);
      if mid.Some? {
        ListStops(later, mid.value);
      }
    }
  }

  lemma OtherItemIsApplied(n: Node, rest: string, stack: seq<Server.Tree>, mid: Option<seq<Server.Tree>>)
    requires ItemText(n).Pushed? && !Stopping(n) && AtToken(rest) && mid == ApplyAll(SentTokens(n), stack)
    ensures Server.ParseFrom(ItemText(n).text + rest, stack) == Then(mid, rest)
  {
    ItemTextIsTokens(n);
    TextIsApplied(SentTokens(n), rest, stack);
  }

  lemma StoppingLeafFailsFilter(quals: seq<Node>)
    requires SerializeNodes(CompileQuals(quals)).Pushed? && exists n <- CompileQuals(quals) :: Stopping(n)
    ensures Server.Parse(SerializeNodes(CompileQuals(quals)).text) == None
  {
    ListStops(CompileQuals(quals), []);
  }

  /** A pushed leaf keeps its meaning on every row exactly when it is faithful. */
  lemma LeafSurvivesIffFaithful(n: Node)
    requires n.IsLeaf() && ItemText(n).Pushed?
    ensures Faithful(n) <==> forall row :: ServerValue(ItemText(n).text, row) == Some(LeafValue(n, row))
  {
    if Faithful(n) {
      forall row
        ensures ServerValue(ItemText(n).text, row) == Some(LeafValue(n, row))
      {
        SentIsReadable(n);
        LeafTextParses(n);
        LeafMeans(n, row);
      }
    } else {
      var row := UnfaithfulWitness(n);
    }
  }

  /** A row on which an unfaithful leaf is misjudged. */
  lemma UnfaithfulWitness(n: Node) returns (row: Row)
    requires n.IsLeaf() && ItemText(n).Pushed? && !Faithful(n)
    ensures ServerValue(ItemText(n).text, row) != Some(LeafValue(n, row))
  {
    row := (p: Pred) => False;
    if Stopping(n) {
      StoppingText(n);
    } else {
      LeafTextParses(n);
      if n.OpExpr? {
        var asked := ServerAsks(n);
        row := (p: Pred) => if p == asked then True else False;
        ComparisonMeans(n, row);
        AsksOtherwise(n, row);
      } else {
        row := (p: Pred) => True;
        ArrayIsMisjudged(n, row);
      }
    }
  }

  /** What the server asks is not what an unfaithful comparison asks. */
  lemma AsksOtherwise(n: Node, row: Row)
    requires n.OpExpr? && ItemText(n).Pushed? && ReadableAll(SentTokens(n)) && !Faithful(n)
    requires forall p :: row(p) == if p == ServerAsks(n) then True else False
    ensures LeafValue(n, row) != True
  {
    var ts := SentTokens(n);
    PushedOpExpr(n);
    ComparisonOutcome(n);
    assert ts[0] in ts && ts[1] in ts;
  }

  /** An array that is NULL or passed by value goes out as no values at all. */
  lemma ArrayIsMisjudged(n: Node, row: Row)
    requires n.ScalarArrayOp? && ItemText(n).Pushed? && !ListOnLeft(n)
    requires ReadableAll(SentTokens(n)) && !Faithful(n)
    requires forall p :: row(p) == True
    ensures Meaning(LeafTree(n), row) != Some(LeafValue(n, row))
  {
    var ts := SentTokens(n);
    ArrayTree(n);
    ArrayOutcome(n);
    assert ts[1] in ts;
    ArrayMeans(n, row);
  }

  /** A constant LIKE a column is pushed and read as the column LIKE the constant. */
  lemma LikeIsReversed(n: Node)
    requires n.OpExpr? && ItemText(n).Pushed? && n.left.ConstArg? && FaithfulConstant(n.left) &&
             RelationOf(n.opno) == Some(Like)
    ensures n.right.Some? && n.right.value.VarArg? && !Faithful(n)
    ensures Server.Parse(ItemText(n).text) ==
            Some(Server.Binary(Server.LIKE, Server.ColumnIndex(n.right.value.attno - 1),
                Server.ScalarOperand(n.left.typ, n.left.text)))
  {
    PushedOpExpr(n);
    OpExprIsReadable(n);
    LeafTextParses(n);
    ConstantChangesSides(n);
  }

  lemma ConstantChangesSides(n: Node)
    requires n.OpExpr? && ItemText(n).Pushed? && n.left.ConstArg? && FaithfulConstant(n.left) &&
             RelationOf(n.opno) == Some(Like)
    requires n.right.Some? && n.right.value.VarArg?
    ensures LeafTree(n) ==
            Server.Binary(Server.LIKE, Server.ColumnIndex(n.right.value.attno - 1),
            Server.ScalarOperand(n.left.typ, n.left.text))
  {
    var op := ComparisonTree(n);
    OnlyLike(op);
    SidesOf(n);
  }

  lemma OnlyLike(op: Server.Operator)
    ensures Asked(op) == Some(Like) <==> op == Server.LIKE
  {
  }

  lemma SidesOf(n: Node)
    requires n.OpExpr? && ItemText(n).Pushed? && n.left.ConstArg? && !n.left.isnull
    requires n.right.Some? && n.right.value.VarArg?
    ensures ColumnOf(n) == Server.ColumnIndex(n.right.value.attno - 1)
    ensures ConstantOf(n) == Server.ScalarOperand(n.left.typ, n.left.text)
  {
  }

  /** Such a leaf: 'abc' LIKE the first column. */
  lemma ReversedLikeIsPushed()
    ensures var n := OpExpr(1, 1209, ConstArg(25, false, false, "abc", [], false), Some(VarArg(1, 25)));
            ItemText(n).Pushed? && FaithfulConstant(n.left) && RelationOf(n.opno) == Some(Like)
  {
    ComparisonOutcome(OpExpr(1, 1209, ConstArg(25, false, false, "abc", [], false), Some(VarArg(1, 25))));
  }
}
