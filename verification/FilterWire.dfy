/** The serialized filter string, the serializer that writes it and a lexer that reads it. */
module FilterWire {
  import opened Decimal
  import opened FilterSyntax
  import opened FilterCompiler

  // ----- tokens as text -----

  /** A constant's length and bytes. */
  function Sized(text: string): string {
    "s" + Digits(|text|) + "d" + text
  }

  function SizedAll(elems: seq<string>): string {
    if elems == [] then "" else Sized(elems[0]) + SizedAll(elems[1..])
  }

  function Render(t: Token): string {
    match t
    case Attr(column) => "a" + FormatInt(column)
    case Scalar(typ, text) => "c" + Digits(typ) + Sized(text)
    case ListConst(typ, elems) => "m" + Digits(typ) + SizedAll(elems)
    case Operator(code) => "o" + Digits(code)
    case Logical(kind) => "l" + Digits(kind)
  }

  function RenderAll(ts: seq<Token>): string {
    if ts == [] then "" else Render(ts[0]) + RenderAll(ts[1..])
  }

  // ----- the lexer -----

  /** Reads s<len>d<bytes>. */
  function ReadSized(s: string): (r: Option<(string, string)>)
    ensures r.Some? ==> |r.value.1| < |s|
  {
    if s == [] || s[0] != 's' then None
    else match ReadNat(s[1..])
      case None => None
      case Some((len, rest)) =>
        if rest == [] || rest[0] != 'd' || |rest| < 1 + len || |rest| >= |s| then None
        else Some((rest[1..1 + len], rest[1 + len..]))
  }

  function ReadElems(s: string): (seq<string>, string)
    decreases |s|
  {
    match ReadSized(s)
    case None => ([], s)
    case Some((text, rest)) =>
      var (more, tail) := ReadElems(rest);
      ([text] + more, tail)
  }

  function LexOne(s: string): Option<(Token, string)> {
    if s == [] then None
    else if s[0] == 'a' then
      (match ReadInt(s[1..]) case Some((i, rest)) => Some((Attr(i), rest)) case None => None)
    else match ReadNat(s[1..])
      case None => None
      case Some((n, rest)) =>
        if s[0] == 'o' then Some((Operator(n), rest))
        else if s[0] == 'l' then Some((Logical(n), rest))
        else if s[0] == 'm' then
          var (elems, tail) := ReadElems(rest);
          Some((ListConst(n, elems), tail))
        else if s[0] == 'c' then
          (match ReadSized(rest) case Some((text, tail)) => Some((Scalar(n, text), tail)) case None => None)
        else None
  }

  function Lex(s: string): Option<seq<Token>>
    decreases |s|
  {
    if s == [] then Some([])
    else match LexOne(s)
      case None => None
      case Some((t, rest)) =>
        if |rest| >= |s| then None
        else match Lex(rest)
          case None => None
          case Some(ts) => Some([t] + ts)
  }

  // ----- unique decodability -----

  /** What follows a token: nothing, or the first letter of another. */
  predicate AtToken(s: string) {
    s == [] || s[0] == 'a' || s[0] == 'c' || s[0] == 'm' || s[0] == 'o' || s[0] == 'l'
  }

  lemma SizedReadsBack(text: string, rest: string)
    ensures ReadSized(Sized(text) + rest) == Some((text, rest))
  {
    var s := Sized(text) + rest;
    var afterLen := "d" + text + rest;
    assert s[1..] == Digits(|text|) + afterLen;
    ReadNatOfDigits(|text|, afterLen);
    assert afterLen[1..1 + |text|] == text;
    assert afterLen[1 + |text|..] == rest;
  }

  lemma {:induction false} ElemsReadBack(elems: seq<string>, rest: string)
    requires AtToken(rest)
    ensures ReadElems(SizedAll(elems) + rest) == (elems, rest)
    ensures NoLeadingDigit(SizedAll(elems) + rest)
  {
    if elems == [] {
      assert SizedAll(elems) + rest == rest;
    } else {
      var first, later := elems[0], elems[1..];
      var s, tail := SizedAll(elems) + rest, SizedAll(later) + rest;
      Associate(Sized(first), SizedAll(later), rest);
      SizedReadsBack(first, tail);
      ElemsReadBack(later, rest);
      ElemTaken(s, first, tail, later, rest);
      assert elems == [first] + later && Sized(first)[0] == 's';
    }
  }

  lemma Associate(a: string, b: string, c: string)
    ensures a + b + c == a + (b + c)
  {
  }

  lemma ElemTaken(s: string, first: string, tail: string, later: seq<string>, rest: string)
    requires ReadSized(s) == Some((first, tail)) && ReadElems(tail) == (later, rest)
    ensures ReadElems(s) == ([first] + later, rest)
  {
  }

  lemma AttrReadsBack(column: int, rest: string)
    requires AtToken(rest)
    ensures LexOne(Render(Attr(column)) + rest) == Some((Attr(column), rest))
  {
    var s := "a" + FormatInt(column) + rest;
    assert s[0] == 'a' && s[1..] == FormatInt(column) + rest;
    ReadIntOfFormat(column, rest);
  }

  lemma CodeReadsBack(c: char, n: nat, rest: string)
    requires AtToken(rest) && (c == 'o' || c == 'l')
    ensures LexOne([c] + Digits(n) + rest) == Some((if c == 'o' then Operator(n) else Logical(n), rest))
  {
    var s := [c] + Digits(n) + rest;
    assert s[0] == c && s[1..] == Digits(n) + rest;
    ReadNatOfDigits(n, rest);
  }

  lemma TailOf(c: char, x: string, y: string, rest: string)
    ensures var s := [c] + x + y + rest; s[0] == c && s[1..] == x + (y + rest)
  {
  }

  lemma ScalarReadsBack(t: Token, rest: string)
    requires t.Scalar?
    ensures LexOne(Render(t) + rest) == Some((t, rest))
  {
    var s := Render(t) + rest;
    var tail := Sized(t.text) + rest;
    TailOf('c', Digits(t.typ), Sized(t.text), rest);
    ReadNatOfDigits(t.typ, tail);
    SizedReadsBack(t.text, rest);
  }

  lemma ListReadsBack(t: Token, rest: string)
    requires t.ListConst?
    requires AtToken(rest)
    ensures LexOne(Render(t) + rest) == Some((t, rest))
  {
    var s := Render(t) + rest;
    var tail := SizedAll(t.elems) + rest;
    TailOf('m', Digits(t.typ), SizedAll(t.elems), rest);
    ElemsReadBack(t.elems, rest);
    ReadNatOfDigits(t.typ, tail);
  }

  lemma TokenReadsBack(t: Token, rest: string)
    requires AtToken(rest)
    ensures LexOne(Render(t) + rest) == Some((t, rest))
    ensures AtToken(Render(t) + rest) && |Render(t)| > 0
  {
    match t {
      case Scalar(_, _) => ScalarReadsBack(t, rest);
      case ListConst(_, _) => ListReadsBack(t, rest);
      case Attr(column) => AttrReadsBack(column, rest);
      case Operator(code) => CodeReadsBack('o', code, rest);
      case Logical(kind) => CodeReadsBack('l', kind, rest);
    }
  }

  /** Every token sequence, with any bytes in its constants, reads back exactly. */
  lemma {:induction false} LexRenderAll(ts: seq<Token>)
    ensures Lex(RenderAll(ts)) == Some(ts)
    ensures AtToken(RenderAll(ts))
  {
    if ts != [] {
      LexRenderAll(ts[1..]);
      TokenReadsBack(ts[0], RenderAll(ts[1..]));
      assert ts == [ts[0]] + ts[1..];
    }
  }

  lemma UniquelyDecodable(a: seq<Token>, b: seq<Token>)
    ensures RenderAll(a) == RenderAll(b) <==> a == b
  {
    LexRenderAll(a);
    LexRenderAll(b);
  }

  lemma {:induction false} RenderAllConcat(a: seq<Token>, b: seq<Token>)
    ensures RenderAll(a + b) == RenderAll(a) + RenderAll(b)
  {
    if a == [] {
      assert a + b == b;
    } else {
      assert (a + b)[1..] == a[1..] + b;
      RenderAllConcat(a[1..], b);
    }
  }

  // ----- the serializer -----

  datatype Outcome = Pushed(text: string) | NotPushed | Raised

  datatype Operand =
    | AttrOperand(attnum: int)
    | ScalarOperand(typ: nat, text: string)
    | ListOperand(typ: nat, text: string)

  datatype Conversion = Filter(l: Operand, r: Operand, op: nat) | Rejected | Error

  function ScalarConstToStr(c: Arg): Option<string>
    requires c.ConstArg?
  {
    if c.isnull then Some("NULL") else if Printable(c.typ) then Some(c.text) else None
  }

  /** Prints the elements of an array constant one after the other; None is a raised error. */
  method ListConstToStr(c: Arg) returns (r: Option<string>)
    requires c.ConstArg?
    ensures r == ListText(c)
  {
    if c.isnull || c.byval {
      return Some("");
    }
    if !IsArrayType(c.typ) || c.nullElem {
      return None;
    }
    var buf := "";
    for i := 0 to |c.elems|
      invariant buf + SizedAll(c.elems[i..]) == SizedAll(c.elems)
    {
      assert c.elems[i..][1..] == c.elems[i + 1..];
      buf := buf + ("s" + Digits(|c.elems[i]|) + "d" + c.elems[i]);
    }
    assert c.elems[|c.elems|..] == [] && buf + "" == buf;
    return Some(buf);
  }

  function ListText(c: Arg): Option<string>
    requires c.ConstArg?
  {
    if c.isnull || c.byval then Some("")
    else if IsArrayType(c.typ) && !c.nullElem then Some(SizedAll(c.elems))
    else None
  }

  function OpExprToPxfFilter(opno: nat, left: Arg, right: Option<Arg>): Conversion {
    if right.None? then Rejected
    else if !SupportedFilterType(right.value.typ) || !SupportedFilterType(left.typ) then Rejected
    else match PxfCode(opno)
      case None => Rejected
      case Some(code) =>
        if left.VarArg? && right.value.ConstArg? then
          if left.attno <= 0 then Rejected
          else match ScalarConstToStr(right.value)
            case None => Error
            case Some(text) => Filter(AttrOperand(left.attno), ScalarOperand(right.value.typ, text), code)
        else if left.ConstArg? && right.value.VarArg? then
          match ScalarConstToStr(left)
            case None => Error
            case Some(text) =>
              if right.value.attno <= 0 then Rejected
              else Filter(ScalarOperand(left.typ, text), AttrOperand(right.value.attno), code)
        else Rejected
  }

  function ScalarArrayOpExprToPxfFilter(opno: nat, useOr: bool, left: Arg, right: Arg): Conversion {
    if !SupportedFilterType(right.typ) || !SupportedFilterType(left.typ) then Rejected
    else if !useOr || !ArrayOperator(opno) then Rejected
    else if left.VarArg? && right.ConstArg? then
      if left.attno <= 0 then Rejected
      else match ListText(right)
        case None => Error
        case Some(text) => Filter(AttrOperand(left.attno), ListOperand(right.typ, text), PXFOP_IN)
    else if left.ConstArg? && right.VarArg? then
      match ListText(left)
        case None => Error
        case Some(text) =>
          if right.attno <= 0 then Rejected
          else Filter(ListOperand(left.typ, text), AttrOperand(right.attno), PXFOP_IN)
    else Rejected
  }

  function VarToPxfFilter(attno: AttrNumber, typ: nat): Conversion {
    if !SupportedFilterType(typ) || attno <= 0 then Rejected
    else Filter(AttrOperand(attno), ScalarOperand(BOOLOID, "true"), 0)
  }

  /** The operand text; the list-on-the-left case writes the scalar code. */
  function OperandText(o: Operand, onLeft: bool): string {
    match o
    case AttrOperand(attnum) => "a" + FormatInt(attnum - 1)
    case ScalarOperand(typ, text) => "c" + Digits(typ) + Sized(text)
    case ListOperand(typ, text) => (if onLeft then "c" else "m") + Digits(typ) + text
  }

  function FilterText(c: Conversion): Outcome {
    match c
    case Rejected => NotPushed
    case Error => Raised
    case Filter(l, r, op) => Pushed(OperandText(l, true) + OperandText(r, false) + ("o" + Digits(op)))
  }

  function BoolCode(op: BoolOp): nat {
    match op case AndOp => 0 case OrOp => 1 case NotOp => 2
  }

  /** What one expression item adds to the string. */
  function ItemText(n: Node): Outcome {
    match n
    case VarNode(_, attno, typ) => FilterText(VarToPxfFilter(attno, typ))
    case OpExpr(_, opno, left, right) => FilterText(OpExprToPxfFilter(opno, left, right))
    case ScalarArrayOp(_, opno, useOr, left, arr) => FilterText(ScalarArrayOpExprToPxfFilter(opno, useOr, left, arr))
    case BoolExpr(_, op, _) => Pushed("l" + Digits(BoolCode(op)))
    case NullTest(_, isNullTest, attno, typ) =>
      if !SupportedFilterType(typ) then NotPushed
      else Pushed("a" + FormatInt(attno - 1) + ("o" + Digits(if isNullTest then PXFOP_IS_NULL else PXFOP_IS_NOTNULL)))
    case Unsupported(_) => Pushed("")
  }

  // ----- exactly which leaves are pushed, are not, and raise an error -----

  /** A column and a constant of types that the wrapper knows, on either side. */
  predicate ColumnAndConstant(left: Arg, right: Arg) {
    && TypeKind(left.typ).Some? && TypeKind(right.typ).Some?
    && ((left.VarArg? && right.ConstArg?) || (left.ConstArg? && right.VarArg?))
  }

  /** The column is not a system column. */
  predicate UserColumn(left: Arg, right: Arg) {
    (left.VarArg? ==> left.attno > 0) && (right.VarArg? ==> right.attno > 0)
  }

  /** A scalar constant has a text unless it is a truth value or an array. */
  predicate ScalarPrints(c: Arg) {
    c.ConstArg? ==> c.isnull || TypeKind(c.typ) !in {Some(Boolean), Some(List)}
  }

  /** An array constant has a text unless it is no array or has a NULL among its elements. */
  predicate ListPrints(c: Arg) {
    c.ConstArg? ==> c.isnull || c.byval || (TypeKind(c.typ) == Some(List) && !c.nullElem)
  }

  /** A constant on the left is printed before its column is looked at. */
  predicate PrintsFirst(left: Arg, right: Arg) {
    left.ConstArg? || UserColumn(left, right)
  }

  /** A comparison is looked at only with a known operator between a column and a constant. */
  lemma ComparisonOutcome(n: Node)
    requires n.OpExpr?
    ensures ItemText(n).Pushed? <==>
            && n.right.Some? && RelationOf(n.opno).Some? && ColumnAndConstant(n.left, n.right.value)
            && UserColumn(n.left, n.right.value) && ScalarPrints(n.left) && ScalarPrints(n.right.value)
    ensures ItemText(n).Raised? <==>
            && n.right.Some? && RelationOf(n.opno).Some? && ColumnAndConstant(n.left, n.right.value)
            && PrintsFirst(n.left, n.right.value) && !(ScalarPrints(n.left) && ScalarPrints(n.right.value))
  {
    PxfCodeIsRelation(n.opno);
    TypesAreKnown(n.left.typ);
    if n.right.Some? {
      TypesAreKnown(n.right.value.typ);
    }
  }

  /** Of the array comparisons only = ANY is looked at, and not for truth values. */
  lemma ArrayOutcome(n: Node)
    requires n.ScalarArrayOp?
    ensures ItemText(n).Pushed? <==>
            && n.useOr && RelationOf(n.opno) == Some(Equal) && n.opno != 91 && ColumnAndConstant(n.left, n.arr)
            && UserColumn(n.left, n.arr) && ListPrints(n.left) && ListPrints(n.arr)
    ensures ItemText(n).Raised? <==>
            && n.useOr && RelationOf(n.opno) == Some(Equal) && n.opno != 91 && ColumnAndConstant(n.left, n.arr)
            && PrintsFirst(n.left, n.arr) && !(ListPrints(n.left) && ListPrints(n.arr))
  {
    ArrayOperatorIsEquality(n.opno);
    TypesAreKnown(n.left.typ);
    TypesAreKnown(n.arr.typ);
  }

  /** A column alone or in a null test, which takes system columns, too. */
  lemma ColumnOutcome(n: Node)
    requires n.VarNode? || n.NullTest?
    ensures ItemText(n).Pushed? <==> TypeKind(n.typ).Some? && (n.VarNode? ==> n.attno > 0)
    ensures !ItemText(n).Raised?
  {
    TypesAreKnown(n.typ);
  }

  /** Text already written, put before an outcome. */
  function Prepend(text: string, o: Outcome): Outcome {
    if o.Pushed? then Pushed(text + o.text) else o
  }

  /** The whole list: the first item that is not pushed decides. */
  function ListOutcome(nodes: seq<Node>): Outcome {
    if nodes == [] then Pushed("")
    else
      var head := ItemText(nodes[0]);
      if head.Pushed? then Prepend(head.text, ListOutcome(nodes[1..])) else head
  }

  function SerializeNodes(nodes: seq<Node>): Outcome {
    var r := ListOutcome(nodes);
    if r == Pushed("") then NotPushed else r
  }

  /** An item raises an error, and all before it are pushed. */
  predicate FirstRaises(nodes: seq<Node>) {
    exists i | 0 <= i < |nodes| :: ItemText(nodes[i]).Raised? && forall j | 0 <= j < i :: ItemText(nodes[j]).Pushed?
  }

  /** Everything is pushed or nothing: the first item that is not pushed decides between no filter and an error. */
  lemma {:induction false} ListOutcomeIff(nodes: seq<Node>)
    ensures ListOutcome(nodes).Pushed? <==> forall i | 0 <= i < |nodes| :: ItemText(nodes[i]).Pushed?
    ensures ListOutcome(nodes).Raised? <==> FirstRaises(nodes)
  {
    if nodes != [] {
      var later := nodes[1..];
      ListOutcomeIff(later);
      if ItemText(nodes[0]).Pushed? {
        PushedFirst(nodes, later);
      }
    }
  }

  lemma PushedFirst(nodes: seq<Node>, later: seq<Node>)
    requires nodes != [] && later == nodes[1..] && ItemText(nodes[0]).Pushed?
    ensures FirstRaises(nodes) <==> FirstRaises(later)
    ensures (forall i | 0 <= i < |nodes| :: ItemText(nodes[i]).Pushed?) <==>
            forall i | 0 <= i < |later| :: ItemText(later[i]).Pushed?
  {
    if i :| 0 <= i < |nodes| && ItemText(nodes[i]).Raised? && forall j | 0 <= j < i :: ItemText(nodes[j]).Pushed? {
      assert later[i - 1] == nodes[i] && forall j | 0 <= j < i - 1 :: later[j] == nodes[j + 1];
    }
    if i :| 0 <= i < |later| && ItemText(later[i]).Raised? && forall j | 0 <= j < i :: ItemText(later[j]).Pushed? {
      assert nodes[i + 1] == later[i] && forall j | 1 <= j < i + 1 :: nodes[j] == later[j - 1];
    }
    assert forall i | 1 <= i < |nodes| :: nodes[i] == later[i - 1];
  }

  method SerializeFilterList(items: seq<ExpressionItem>) returns (r: Outcome)
    ensures r == SerializeNodes(NodesOf(items))
  {
    ghost var nodes := NodesOf(items);
    var buf := "";
    assert nodes[0..] == nodes;
    for i := 0 to |items|
      invariant ListOutcome(nodes) == Prepend(buf, ListOutcome(nodes[i..]))
    {
      var piece := ItemText(items[i].node);
      OutcomeFrom(nodes, i, piece);
      if !piece.Pushed? {
        return piece;
      }
      PrependTwice(buf, piece.text, ListOutcome(nodes[i + 1..]));
      buf := buf + piece.text;
    }
    assert nodes[|items|..] == [];
    if buf == "" {
      return NotPushed;
    }
    return Pushed(buf);
  }

  lemma OutcomeFrom(nodes: seq<Node>, i: nat, piece: Outcome)
    requires i < |nodes| && piece == ItemText(nodes[i])
    ensures ListOutcome(nodes[i..]) == if piece.Pushed? then Prepend(piece.text, ListOutcome(nodes[i + 1..])) else piece
  {
    assert nodes[i..][0] == nodes[i] && nodes[i..][1..] == nodes[i + 1..];
  }

  lemma PrependTwice(a: string, b: string, o: Outcome)
    ensures Prepend(a, Prepend(b, o)) == Prepend(a + b, o)
  {
    if o.Pushed? {
      assert a + (b + o.text) == a + b + o.text;
    }
  }
}
