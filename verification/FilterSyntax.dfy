/**
 The qualifier trees the planner hands to the filter push-down, the catalog tables that
 decide what can be pushed, and SQL's three-valued logic.
 */
module FilterSyntax {
  import opened Decimal

  /** A C string: the bytes before the terminating NUL, in a block the allocator can give out. */
  type CString = s: string | '\0' !in s && |s| < 0x4000_0000 witness ""

  /** A column number is a C short. */
  type AttrNumber = i: int | -0x8000 <= i <= 0x7fff

  datatype BoolOp = AndOp | OrOp | NotOp

  /**
   An argument of a comparison. A constant carries what the type's output function prints
   (text), and for an array constant what each element prints (elems) and whether there is a
   NULL among them.
   */
  datatype Arg =
    | VarArg(attno: AttrNumber, typ: nat)
    | ConstArg(typ: nat, isnull: bool, byval: bool, text: CString, elems: seq<CString>, nullElem: bool)
    | OtherArg(typ: nat)

  /** An expression node; id is its address. */
  datatype Node =
    | VarNode(id: nat, attno: AttrNumber, typ: nat)
    | OpExpr(id: nat, opno: nat, left: Arg, right: Option<Arg>)
    | ScalarArrayOp(id: nat, opno: nat, useOr: bool, left: Arg, arr: Arg)
    | NullTest(id: nat, isNullTest: bool, attno: AttrNumber, typ: nat)
    | BoolExpr(id: nat, op: BoolOp, args: seq<Node>)
    | Unsupported(id: nat)
  {
    predicate IsLeaf() {
      !BoolExpr? && !Unsupported?
    }
  }

  // ----- three-valued logic -----

  datatype Tri = True | False | Unknown

  function Not3(v: Tri): Tri {
    match v
    case True => False
    case False => True
    case Unknown => Unknown
  }

  function And3(a: Tri, b: Tri): Tri {
    if a == False || b == False then False else if a == Unknown || b == Unknown then Unknown else True
  }

  function Or3(a: Tri, b: Tri): Tri {
    if a == True || b == True then True else if a == Unknown || b == Unknown then Unknown else False
  }

  /** SQL's AND of any number of operands. */
  function Conj(vs: seq<Tri>): Tri {
    if False in vs then False else if Unknown in vs then Unknown else True
  }

  function Disj(vs: seq<Tri>): Tri {
    if True in vs then True else if Unknown in vs then Unknown else False
  }

  /** False below unknown below true. */
  function Rank(v: Tri): int {
    match v case False => -1 case Unknown => 0 case True => 1
  }

  /** NOT, AND and OR are the opposite, the least and the greatest value. */
  lemma ConnectivesByRank(a: Tri, b: Tri)
    ensures Rank(Not3(a)) == -Rank(a)
    ensures Rank(And3(a, b)) == if Rank(a) < Rank(b) then Rank(a) else Rank(b)
    ensures Rank(Or3(a, b)) == if Rank(a) > Rank(b) then Rank(a) else Rank(b)
  {
  }

  /** The same for any number of operands; the AND of none is true and the OR of none is false. */
  lemma {:induction false} JunctionsByRank(vs: seq<Tri>)
    ensures Conj(vs) == if vs == [] then True else And3(vs[0], Conj(vs[1..]))
    ensures Disj(vs) == if vs == [] then False else Or3(vs[0], Disj(vs[1..]))
  {
    if vs != [] {
      assert vs == [vs[0]] + vs[1..];
    }
  }

  // ----- the wrapper's tables -----

  const BOOLOID: nat := 16
  const CHAROID: nat := 18
  const PXFOP_IS_NULL: nat := 8
  const PXFOP_IS_NOTNULL: nat := 9
  const PXFOP_LIKE: nat := 7
  const PXFOP_IN: nat := 10

  /** Types for which a comparison may be pushed down. */
  predicate SupportedFilterType(typ: nat) {
    typ in {21, 23, 20, 700, 701, 1700, 16, 25, 1043, 1042, 18, 1082, 1114, 1005, 1007, 1016, 1009}
  }

  /** Types whose scalar constants can be printed. */
  predicate Printable(typ: nat) {
    typ in {21, 23, 20, 700, 701, 1700, 25, 1043, 1042, 18, 17, 1082, 1114}
  }

  predicate IsArrayType(typ: nat) {
    typ in {1005, 1007, 1016, 1009}
  }

  /** Operator OID to PXF operator code (1 <, 2 >, 3 <=, 4 >=, 5 =, 6 <>, 7 LIKE). */
  function PxfCode(opno: nat): (code: Option<nat>)
    ensures code.Some? ==> 1 <= code.value <= 7
  {
    match opno
    case 95 | 97 | 412 | 664 | 534 | 535 | 418 | 37 | 1864 | 1870 | 1095 | 2062 | 672 | 1122 | 58 | 1058
      => Some(1)
    case 520 | 521 | 413 | 666 | 536 | 537 | 419 | 76 | 1865 | 1871 | 1097 | 2064 | 674 | 1123 | 59 |
      1060 => Some(2)
    case 522 | 523 | 414 | 665 | 540 | 541 | 420 | 80 | 1866 | 1872 | 1096 | 2063 | 673 | 1124 | 1694 |
      1059 => Some(3)
    case 524 | 525 | 415 | 667 | 542 | 543 | 430 | 82 | 1867 | 1873 | 1098 | 2065 | 675 | 1125 | 1695 |
      1061 => Some(4)
    case 94 | 96 | 410 | 98 | 532 | 533 | 416 | 15 | 1862 | 1868 | 1093 | 2060 | 670 | 1120 | 91 | 1054
      => Some(5)
    case 519 | 518 | 411 | 531 | 538 | 539 | 417 | 36 | 1863 | 1869 | 1094 | 2061 | 671 | 1121 | 85 |
      1057 => Some(6)
    case 1209 => Some(7)
    case _ => None
  }

  /** Equality operators that, combined with ANY, push down as IN. */
  predicate ArrayOperator(opno: nat) {
    opno in {94, 96, 410, 98, 532, 533, 416, 15, 1862, 1868, 1093, 2060, 670, 1120, 1054}
  }

  // ----- the system catalog: what types and operators are -----

  datatype Kind = Number | Boolean | Characters | Time | List

  /** The kinds of the types that the wrapper knows. */
  function TypeKind(typ: nat): Option<Kind> {
    match typ
    case 20 | 21 | 23 => Some(Number)             // int8, int2, int4
    case 700 | 701 | 1700 => Some(Number)         // float4, float8, numeric
    case 16 => Some(Boolean)
    case 18 | 25 | 1042 | 1043 => Some(Characters) // "char", text, bpchar, varchar
    case 1082 | 1114 => Some(Time)                // date, timestamp
    case 1005 | 1007 | 1009 | 1016 => Some(List)
    case _ => None
  }

  /** The type of an array's elements. */
  function ElementOid(typ: nat): Option<nat> {
    match typ
    case 1000 => Some(16)
    case 1005 => Some(21)
    case 1007 => Some(23)
    case 1009 => Some(25)
    case 1016 => Some(20)
    case _ => None
  }

  datatype Relation = Less | Greater | AtMost | AtLeast | Equal | Different | Like

  /** Which of the comparisons =, <>, <, >, <= and >= of two types an operator is. */
  function Among(opno: nat, eq: nat, ne: nat, lt: nat, gt: nat, le: nat, ge: nat): Option<Relation> {
    if opno == eq then Some(Equal)
    else if opno == ne then Some(Different)
    else if opno == lt then Some(Less)
    else if opno == gt then Some(Greater)
    else if opno == le then Some(AtMost)
    else if opno == ge then Some(AtLeast)
    else None
  }

  function Either(a: Option<Relation>, b: Option<Relation>): Option<Relation> {
    if a.Some? then a else b
  }

  /** The comparisons of integers with integers of the same or another width. */
  function OfIntegers(opno: nat): Option<Relation> {
    Either(Among(opno, 94, 519, 95, 520, 522, 524),         // int2, int2
    Either(Among(opno, 96, 518, 97, 521, 523, 525),         // int4, int4
    Either(Among(opno, 410, 411, 412, 413, 414, 415),       // int8, int8
    Either(Among(opno, 532, 538, 534, 536, 540, 542),       // int2, int4
    Either(Among(opno, 533, 539, 535, 537, 541, 543),       // int4, int2
    Either(Among(opno, 416, 417, 418, 419, 420, 430),       // int8, int4
    Either(Among(opno, 15, 36, 37, 76, 80, 82),             // int4, int8
    Either(Among(opno, 1862, 1863, 1864, 1865, 1866, 1867), // int2, int8
           Among(opno, 1868, 1869, 1870, 1871, 1872, 1873)  // int8, int2
    ))))))))
  }

  function OfOthers(opno: nat): Option<Relation> {
    Either(Among(opno, 98, 531, 664, 666, 665, 667),        // text, text
    Either(Among(opno, 1093, 1094, 1095, 1097, 1096, 1098), // date, date
    Either(Among(opno, 2060, 2061, 2062, 2064, 2063, 2065), // timestamp, timestamp
    Either(Among(opno, 670, 671, 672, 674, 673, 675),       // float8, float8
    Either(Among(opno, 1120, 1121, 1122, 1123, 1124, 1125), // float4, float8
    Either(Among(opno, 91, 85, 58, 59, 1694, 1695),         // bool, bool
           Among(opno, 1054, 1057, 1058, 1060, 1059, 1061)  // bpchar, bpchar
    ))))))
  }

  /** What an operator asks of its operands. */
  function RelationOf(opno: nat): Option<Relation> {
    if opno == 1209 then Some(Like) else Either(OfIntegers(opno), OfOthers(opno))
  }

  /** The comparison with its sides exchanged. */
  function Mirror(relation: Relation): Relation {
    match relation
    case Less => Greater
    case Greater => Less
    case AtMost => AtLeast
    case AtLeast => AtMost
    case _ => relation
  }

  /** What the comparisons say of two numbers. */
  predicate Compares(relation: Relation, a: int, b: int) {
    match relation
    case Less => a < b
    case Greater => a > b
    case AtMost => a <= b
    case AtLeast => a >= b
    case Equal => a == b
    case Different => a != b
    case Like => false
  }

  /** The mirrored comparison says the same of the exchanged sides, and no other one does. */
  lemma MirrorExchanges(relation: Relation, other: Relation)
    requires relation != Like && other != Like
    ensures other == Mirror(relation) <==> forall a, b :: Compares(relation, a, b) == Compares(other, b, a)
  {
    if other != Mirror(relation) {
      assert Compares(relation, 0, 1) != Compares(other, 1, 0) || Compares(relation, 0, 0) != Compares(other, 0, 0) ||
             Compares(relation, 1, 0) != Compares(other, 0, 1);
    }
  }

  function CodeOf(relation: Relation): nat {
    match relation
    case Less => 1
    case Greater => 2
    case AtMost => 3
    case AtLeast => 4
    case Equal => 5
    case Different => 6
    case Like => PXFOP_LIKE
  }

  // ----- the tables agree with the catalog -----

  lemma IntegerCodes(opno: nat)
    requires OfIntegers(opno).Some?
    ensures PxfCode(opno) == Some(CodeOf(OfIntegers(opno).value)) && opno != 1209
  {
  }

  lemma OtherCodes(opno: nat)
    requires OfOthers(opno).Some?
    ensures PxfCode(opno) == Some(CodeOf(OfOthers(opno).value)) && opno != 1209
  {
  }

  lemma CodesAreRelations(opno: nat)
    requires PxfCode(opno).Some?
    ensures RelationOf(opno).Some?
  {
  }

  /** An operator has a code exactly when the catalog knows it, and the code of what it asks. */
  lemma PxfCodeIsRelation(opno: nat)
    ensures PxfCode(opno) == match RelationOf(opno) case None => None case Some(relation) => Some(CodeOf(relation))
  {
    if OfIntegers(opno).Some? {
      IntegerCodes(opno);
    } else if OfOthers(opno).Some? {
      OtherCodes(opno);
    } else if PxfCode(opno).Some? {
      CodesAreRelations(opno);
    }
  }

  lemma ArrayOperatorIsEquality(opno: nat)
    ensures ArrayOperator(opno) <==> RelationOf(opno) == Some(Equal) && opno != 91
  {
  }

  lemma TypesAreKnown(typ: nat)
    ensures SupportedFilterType(typ) <==> TypeKind(typ).Some?
    ensures IsArrayType(typ) <==> TypeKind(typ) == Some(List)
    ensures IsArrayType(typ) <==> ElementOid(typ).Some? && typ != 1000
    ensures SupportedFilterType(typ) ==> (Printable(typ) <==> TypeKind(typ) !in {Some(List), Some(Boolean)})
  {
  }

  // ----- predicates a row is tested against -----

  datatype Token =
    | Attr(column: int)
    | Scalar(typ: nat, text: string)
    | ListConst(typ: nat, elems: seq<string>)
    | Operator(code: nat)
    | Logical(kind: nat)

  /** What a leaf asks of a row. */
  datatype Pred =
    | NullCheck(column: int, wantNull: bool)
    | BoolColumn(column: int)
    | Compare(l: Token, relation: Relation, r: Token)
    | Opaque(id: nat)

  /** The outcome of every elementary predicate on some row: any function will do. */
  type Row = Pred -> Tri

  /** A column or a scalar value. */
  function ArgToken(a: Arg): Token {
    match a
    case VarArg(attno, _) => Attr(attno - 1)
    case ConstArg(typ, _, _, text, _, _) => Scalar(typ, text)
    case OtherArg(typ) => Scalar(typ, "")
  }

  /**
   What a comparison asks of a row. One with the column on the right is the mirrored one with
   the column on the left, except that a constant LIKE a column is no column LIKE anything.
   */
  function Comparison(l: Token, relation: Relation, r: Token): Pred {
    if !l.Attr? && r.Attr? && relation != Like then Compare(r, Mirror(relation), l) else Compare(l, relation, r)
  }

  /** The outcomes of comparing one operand with each element of an array. */
  function Elementwise(l: Token, relation: Relation, typ: nat, elems: seq<string>, row: Row): (vs: seq<Tri>)
    ensures |vs| == |elems|
  {
    if elems == [] then []
    else [row(Comparison(l, relation, Scalar(typ, elems[0])))] + Elementwise(l, relation, typ, elems[1..], row)
  }

  /** The same with SQL's NULLs: a NULL operand or element makes an outcome unknown. */
  function AgainstArray(left: Arg, relation: Relation, arr: Arg, row: Row): seq<Tri>
    requires arr.ConstArg? && ElementOid(arr.typ).Some?
  {
    (if left.ConstArg? && left.isnull then seq(|arr.elems|, _ => Unknown)
     else Elementwise(ArgToken(left), relation, ElementOid(arr.typ).value, arr.elems, row))
    + if arr.nullElem then [Unknown] else []
  }

  /**
   SQL meaning of a leaf. A comparison with a NULL constant is unknown; x op ANY (array) is the
   OR of the comparisons of x with the elements, and x op ALL (array) is their AND.
   */
  function LeafValue(n: Node, row: Row): Tri
    requires n.IsLeaf()
  {
    match n
    case VarNode(_, attno, _) => row(BoolColumn(attno - 1))
    case NullTest(_, isNullTest, attno, _) => row(NullCheck(attno - 1, isNullTest))
    case OpExpr(id, opno, left, right) =>
      (match (right, RelationOf(opno))
       case (Some(r), Some(relation)) =>
         if (left.ConstArg? && left.isnull) || (r.ConstArg? && r.isnull) then Unknown
         else row(Comparison(ArgToken(left), relation, ArgToken(r)))
       case _ => row(Opaque(id)))
    case ScalarArrayOp(id, opno, useOr, left, arr) =>
      if arr.ConstArg? && arr.isnull then Unknown
      else if arr.ConstArg? && RelationOf(opno).Some? && ElementOid(arr.typ).Some? then
        var vs := AgainstArray(left, RelationOf(opno).value, arr, row);
        if useOr then Disj(vs) else Conj(vs)
      else row(Opaque(id))
  }

  /** Any assignment of truth values to the leaves (and to the nodes the compiler drops). */
  type Valuation = Node -> Tri

  function Sql(row: Row): Valuation {
    (n: Node) => if n.IsLeaf() then LeafValue(n, row) else row(Opaque(n.id))
  }

  /** SQL meaning of a qualifier tree, given its leaves' values. */
  function Eval(n: Node, val: Valuation): Tri {
    match n
    case BoolExpr(_, op, args) =>
      (match op
       case AndOp => Conj(EvalAll(args, val))
       case OrOp => Disj(EvalAll(args, val))
       case NotOp => if |args| == 1 then Not3(Eval(args[0], val)) else Unknown)
    case _ => val(n)
  }

  function EvalAll(ns: seq<Node>, val: Valuation): (vs: seq<Tri>)
    ensures |vs| == |ns|
  {
    if ns == [] then [] else [Eval(ns[0], val)] + EvalAll(ns[1..], val)
  }

  // ----- addresses -----

  function Ids(n: Node): set<nat> {
    if n.BoolExpr? then {n.id} + IdsAll(n.args) else {n.id}
  }

  function IdsAll(ns: seq<Node>): set<nat> {
    if ns == [] then {} else Ids(ns[0]) + IdsAll(ns[1..])
  }

  /** No node is its own descendant; sharing a subtree is allowed. */
  predicate Acyclic(n: Node) {
    n.BoolExpr? ==> n.id !in IdsAll(n.args) && AcyclicAll(n.args)
  }

  predicate AcyclicAll(ns: seq<Node>) {
    ns != [] ==> Acyclic(ns[0]) && AcyclicAll(ns[1..])
  }

  lemma {:induction false} IdsAllSplit(ns: seq<Node>, i: nat)
    requires i < |ns|
    ensures Ids(ns[i]) <= IdsAll(ns)
    ensures AcyclicAll(ns) ==> Acyclic(ns[i])
  {
    if i > 0 {
      IdsAllSplit(ns[1..], i - 1);
    }
  }
}
