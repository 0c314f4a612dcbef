/**
 The server's filter parser: a byte index moves over the filter string, operands and operators
 are pushed on a stack of nodes, and comparisons are turned so that the column is on the left.
 */
module FilterParser {
  import opened Decimal
  import opened FilterSyntax

  // ----- the tree it builds -----

  datatype Operator =
    | NOOP | LESS_THAN | GREATER_THAN | LESS_THAN_OR_EQUAL | GREATER_THAN_OR_EQUAL | EQUALS | NOT_EQUALS
    | LIKE | IS_NULL | IS_NOT_NULL | IN | AND | OR | NOT

  datatype Tree =
    | ColumnIndex(index: int)
    | ScalarOperand(typ: nat, value: string)
    | Collection(typ: nat, data: seq<string>)
    | Unary(op: Operator, child: Tree)
    | Binary(op: Operator, left: Tree, right: Tree)
  {
    predicate IsOperand() {
      ColumnIndex? || ScalarOperand? || Collection?
    }
  }

  function Transpose(op: Operator): Operator {
    match op
    case LESS_THAN => GREATER_THAN
    case GREATER_THAN => LESS_THAN
    case LESS_THAN_OR_EQUAL => GREATER_THAN_OR_EQUAL
    case GREATER_THAN_OR_EQUAL => LESS_THAN_OR_EQUAL
    case _ => op
  }

  function ComparisonOperator(code: int): Option<Operator> {
    match code
    case 0 => Some(NOOP)
    case 1 => Some(LESS_THAN)
    case 2 => Some(GREATER_THAN)
    case 3 => Some(LESS_THAN_OR_EQUAL)
    case 4 => Some(GREATER_THAN_OR_EQUAL)
    case 5 => Some(EQUALS)
    case 6 => Some(NOT_EQUALS)
    case 7 => Some(LIKE)
    case 8 => Some(IS_NULL)
    case 9 => Some(IS_NOT_NULL)
    case 10 => Some(IN)
    case _ => None
  }

  function LogicalOperator(code: int): Option<Operator> {
    match code
    case 0 => Some(AND)
    case 1 => Some(OR)
    case 2 => Some(NOT)
    case _ => None
  }

  // ----- data types -----

  /** The type identifiers the server knows. */
  predicate KnownType(oid: nat) {
    oid in {16, 17, 20, 21, 23, 25, 700, 701, 1042, 1043, 1082, 1083, 1114, 1184, 1700,
            1005, 1007, 1016, 1000, 1009, 1021, 1022}
  }

  /** Those whose values a constant may have. */
  predicate ValueType(oid: nat) {
    oid in {20, 23, 21, 700, 1700, 701, 25, 1043, 1042, 16, 1082, 1114, 1083, 17}
  }

  function ElementType(oid: nat): Option<nat> {
    match oid
    case 1005 => Some(21)
    case 1007 => Some(23)
    case 1016 => Some(20)
    case 1000 => Some(16)
    case 1009 => Some(25)
    case _ => None
  }

  // ----- what each part of the text reads as; None is any exception -----

  const MAX_INT := 0x7fff_ffff

  function SignLength(s: string): nat {
    if s != [] && (s[0] == '-' || s[0] == '+') then 1 else 0
  }

  /** The first position from i on that holds no digit. */
  function DigitsEnd(s: string, i: nat): (n: nat)
    requires i <= |s|
    ensures i <= n <= |s|
    decreases |s| - i
  {
    if i < |s| && IsDigit(s[i]) then DigitsEnd(s, i + 1) else i
  }

  /** Integer.parseInt; a number out of range is an exception. */
  function JavaInt(s: string): (r: Option<int>)
    ensures r.Some? ==> -MAX_INT - 1 <= r.value <= MAX_INT
    ensures r.Some? && SignLength(s) == 0 ==> r.value >= 0
  {
    match ReadNat(s[SignLength(s)..])
    case None => None
    case Some((n, rest)) =>
      var i: int := if s[0] == '-' then -(n as int) else n;
      if rest == [] && -MAX_INT - 1 <= i <= MAX_INT then Some(i) else None
  }

  /** The longest signed number at the start of the text. */
  function ReadInteger(s: string): (r: Option<(int, string)>)
    ensures r.Some? ==> |r.value.1| < |s| && -MAX_INT - 1 <= r.value.0 <= MAX_INT
    ensures r.Some? && SignLength(s) == 0 ==> r.value.0 >= 0
  {
    var n := DigitsEnd(s, SignLength(s));
    match JavaInt(s[..n])
    case None => None
    case Some(i) => if n == 0 then None else Some((i, s[n..]))
  }

  /** A known type identifier, which carries no sign. */
  function ReadType(s: string): (r: Option<(nat, string)>)
    ensures r.Some? ==> |r.value.1| < |s|
  {
    if s == [] || !IsDigit(s[0]) then None
    else match ReadInteger(s)
      case None => None
      case Some((oid, rest)) => if KnownType(oid) then Some((oid, rest)) else None
  }

  /** The length in front of a value. */
  function ReadLength(s: string): (r: Option<(int, string)>)
    ensures r.Some? ==> |r.value.1| < |s|
  {
    if s == [] || s[0] != 's' then None else ReadInteger(s[1..])
  }

  /** A length and that many bytes of a value of the given type. */
  function ReadData(s: string, typ: nat): (r: Option<(string, string)>)
    ensures r.Some? ==> |r.value.1| < |s|
  {
    match ReadLength(s)
    case None => None
    case Some((len, rest)) =>
      if rest == [] || rest[0] != 'd' || len < 0 || len > |rest| - 1 || !ValueType(typ) then None
      else Some((rest[1..1 + len], rest[1 + len..]))
  }

  /** Values as long as there are any; running out of text is an exception. */
  function ReadList(s: string, typ: nat, data: seq<string>): (r: Option<(seq<string>, string)>)
    ensures r.Some? ==> |r.value.1| <= |s|
    decreases |s|
  {
    if s == [] then None
    else if s[0] != 's' then Some((data, s))
    else match ReadData(s, typ)
      case None => None
      case Some((value, rest)) => ReadList(rest, typ, data + [value])
  }

  function ReadScalar(s: string): (r: Option<(Token, string)>)
    ensures r.Some? ==> |r.value.1| < |s|
  {
    match ReadType(s)
    case None => None
    case Some((typ, rest)) =>
      match ReadData(rest, typ)
      case None => None
      case Some((value, tail)) => Some((Scalar(typ, value), tail))
  }

  function ReadCollection(s: string): (r: Option<(Token, string)>)
    ensures r.Some? ==> |r.value.1| < |s|
  {
    match ReadType(s)
    case None => None
    case Some((typ, rest)) =>
      if ElementType(typ).None? then None
      else match ReadList(rest, ElementType(typ).value, [])
        case None => None
        case Some((data, tail)) => Some((ListConst(typ, data), tail))
  }

  /** The code letter and what belongs to it. */
  function ReadToken(s: string): (r: Option<(Token, string)>)
    requires s != []
    ensures r.Some? ==> |r.value.1| < |s|
  {
    var t := s[1..];
    match s[0]
    case 'a' => (match ReadInteger(t) case Some((i, rest)) => Some((Attr(i), rest)) case None => None)
    case 'c' => ReadScalar(t)
    case 'm' => ReadCollection(t)
    case 'o' =>
      (match ReadInteger(t)
       case Some((i, rest)) => if i >= 0 then Some((Operator(i), rest)) else None
       case None => None)
    case 'l' =>
      (match ReadInteger(t)
       case Some((i, rest)) => if i >= 0 then Some((Logical(i), rest)) else None
       case None => None)
    case _ => None
  }

  // ----- what each part does to the stack -----

  function Compared(code: nat, stack: seq<Tree>): Option<seq<Tree>> {
    var k := |stack|;
    match ComparisonOperator(code)
    case None => None
    case Some(op) =>
      if k == 0 then None
      else if op == IS_NULL || op == IS_NOT_NULL then Some(stack[..k - 1] + [Unary(op, stack[k - 1])])
      else if k == 1 || !stack[k - 2].IsOperand() || !stack[k - 1].IsOperand() then None
      else Some(stack[..k - 2] + [Normalized(op, stack[k - 2], stack[k - 1])])
  }

  /** A scalar on the left changes sides with what is on the right. */
  function Normalized(op: Operator, left: Tree, right: Tree): Tree {
    if left.ScalarOperand? then Binary(Transpose(op), right, left) else Binary(op, left, right)
  }

  function Connected(code: nat, stack: seq<Tree>): Option<seq<Tree>> {
    var k := |stack|;
    match LogicalOperator(code)
    case None => None
    case Some(op) =>
      if op == NOT then if k == 0 then None else Some(stack[..k - 1] + [Unary(op, stack[k - 1])])
      else if k < 2 || stack[k - 2].IsOperand() || stack[k - 1].IsOperand() then None
      else Some(stack[..k - 2] + [Binary(op, stack[k - 2], stack[k - 1])])
  }

  function Apply(t: Token, stack: seq<Tree>): Option<seq<Tree>> {
    match t
    case Attr(column) => Some(stack + [ColumnIndex(column)])
    case Scalar(typ, text) => Some(stack + [ScalarOperand(typ, text)])
    case ListConst(typ, elems) => Some(stack + [Collection(typ, elems)])
    case Operator(code) => Compared(code, stack)
    case Logical(kind) => Connected(kind, stack)
  }

  /** One turn of the parser: the new stack and the text that is left. */
  function Turn(s: string, stack: seq<Tree>): (r: Option<(seq<Tree>, string)>)
    requires s != []
    ensures r.Some? ==> |r.value.1| < |s|
  {
    match ReadToken(s)
    case None => None
    case Some((t, rest)) =>
      match Apply(t, stack)
      case None => None
      case Some(next) => Some((next, rest))
  }

  function ParseFrom(s: string, stack: seq<Tree>): Option<seq<Tree>>
    decreases |s|
  {
    if s == [] then Some(stack)
    else match Turn(s, stack)
      case None => None
      case Some((next, rest)) => ParseFrom(rest, next)
  }

  /** One operator must be left, and nothing else. */
  function Result(stack: Option<seq<Tree>>): Option<Tree> {
    if stack.Some? && |stack.value| == 1 && !stack.value[0].IsOperand() then Some(stack.value[0]) else None
  }

  function Parse(s: string): Option<Tree> {
    Result(ParseFrom(s, []))
  }

  // ----- every tree it builds -----

  /**
   Comparisons have operands, connectives operators, and NOT and the null tests one child; a
   constant is of a type that has values, and stands on the left only of another one.
   */
  predicate WellBuilt(t: Tree) {
    match t
    case ColumnIndex(index) => -MAX_INT - 1 <= index <= MAX_INT
    case ScalarOperand(typ, _) => ValueType(typ)
    case Collection(typ, _) => ElementType(typ).Some?
    case Unary(op, child) => (op.NOT? || op.IS_NULL? || op.IS_NOT_NULL?) && WellBuilt(child)
    case Binary(op, left, right) =>
      && WellBuilt(left) && WellBuilt(right)
      && (if op.AND? || op.OR? then !left.IsOperand() && !right.IsOperand() else WellCompared(op, left, right))
  }

  predicate WellCompared(op: Operator, left: Tree, right: Tree) {
    && !op.NOT? && !op.IS_NULL? && !op.IS_NOT_NULL?
    && left.IsOperand() && right.IsOperand() && (left.ScalarOperand? ==> right.ScalarOperand?)
  }

  predicate AllBuilt(stack: seq<Tree>) {
    forall i | 0 <= i < |stack| :: WellBuilt(stack[i])
  }

  lemma TokenIsTyped(s: string)
    requires s != [] && ReadToken(s).Some?
    ensures match ReadToken(s).value.0
            case Attr(column) => -MAX_INT - 1 <= column <= MAX_INT
            case Scalar(typ, _) => ValueType(typ)
            case ListConst(typ, _) => ElementType(typ).Some?
            case _ => true
  {
  }

  lemma ComparedIsBuilt(code: nat, stack: seq<Tree>)
    requires AllBuilt(stack) && Compared(code, stack).Some?
    ensures AllBuilt(Compared(code, stack).value)
  {
  }

  lemma ConnectedIsBuilt(code: nat, stack: seq<Tree>)
    requires AllBuilt(stack) && Connected(code, stack).Some?
    ensures AllBuilt(Connected(code, stack).value)
  {
  }

  /** A turn of the parser keeps all trees on its stack well built. */
  lemma TurnKeepsBuilt(s: string, stack: seq<Tree>)
    requires s != [] && AllBuilt(stack) && Turn(s, stack).Some?
    ensures AllBuilt(Turn(s, stack).value.0)
  {
    TokenIsTyped(s);
    match ReadToken(s).value.0 {
      case Operator(code) => ComparedIsBuilt(code, stack);
      case Logical(kind) => ConnectedIsBuilt(kind, stack);
      case Attr(_) =>
      case Scalar(_, _) =>
      case ListConst(_, _) =>
    }
  }

  lemma {:induction false} ParseKeepsBuilt(s: string, stack: seq<Tree>)
    requires AllBuilt(stack) && ParseFrom(s, stack).Some?
    ensures AllBuilt(ParseFrom(s, stack).value)
    decreases |s|
  {
    if s != [] {
      TurnKeepsBuilt(s, stack);
      ParseKeepsBuilt(Turn(s, stack).value.1, Turn(s, stack).value.0);
    }
  }

  /** Whatever string is parsed, the tree is well built, and never a lone operand. */
  lemma ParsedIsBuilt(s: string)
    requires Parse(s).Some?
    ensures WellBuilt(Parse(s).value) && !Parse(s).value.IsOperand()
  {
    ParseKeepsBuilt(s, []);
  }

  // ----- the parser object -----

  /** The end of the digits is the same from everywhere among them, in the text or in its tail. */
  lemma {:induction false} DigitsEndInTail(s: string, index: nat, i: nat)
    requires index <= i <= |s|
    ensures DigitsEnd(s, i) == index + DigitsEnd(s[index..], i - index)
    decreases |s| - i
  {
    if i < |s| && IsDigit(s[i]) {
      DigitsEndInTail(s, index, i + 1);
    }
  }

  lemma SliceOfTail(s: string, i: nat, len: nat)
    requires i + 1 + len <= |s|
    ensures s[i..][1..1 + len] == s[i + 1..i + 1 + len] && s[i..][1 + len..] == s[i + 1 + len..]
  {
  }

  class Parser {
    var index: nat
    var bytes: string
    var stack: seq<Tree>

    constructor ()
      ensures index == 0 && bytes == [] && stack == []
    {
      index, bytes, stack := 0, [], [];
    }

    ghost predicate Valid()
      reads this
    {
      index <= |bytes|
    }

    /** The text not yet read. */
    ghost function Left(): string
      requires Valid()
      reads this
    {
      bytes[index..]
    }

    /** r is what the specification reads, and the index has moved past it. */
    ghost predicate Took<T(!new)>(r: Option<T>, spec: Option<(T, string)>)
      requires Valid()
      reads this
    {
      match spec
      case None => r.None?
      case Some((x, rest)) => r == Some(x) && Left() == rest
    }

    /** parseDigits: an optional sign and the digits after it. */
    method ParseDigits() returns (digits: string)
      requires Valid() && index < |bytes|
      modifies this`index
      ensures Valid() && bytes == old(bytes)
      ensures var s := old(Left()); var n := DigitsEnd(s, SignLength(s)); digits == s[..n] && Left() == s[n..]
    {
      var i := index;
      if bytes[i] == '-' || bytes[i] == '+' {
        i := i + 1;
      }
      ghost var start := i;
      while i < |bytes| && IsDigit(bytes[i])
        invariant start <= i <= |bytes| && DigitsEnd(bytes, i) == DigitsEnd(bytes, start)
      {
        i := i + 1;
      }
      DigitsEndInTail(bytes, index, start);
      digits := bytes[index..i];
      index := i;
    }

    /** parseInt and parseNumber. */
    method ParseNumber() returns (r: Option<int>)
      requires Valid()
      modifies this`index
      ensures Valid() && bytes == old(bytes)
      ensures Took(r, ReadInteger(old(Left())))
    {
      if index == |bytes| {
        return None;
      }
      var digits := ParseDigits();
      if digits == "" {
        return None;
      }
      r := JavaInt(digits);
    }

    method ParseConstDataType() returns (r: Option<nat>)
      requires Valid()
      modifies this`index
      ensures Valid() && bytes == old(bytes)
      ensures Took(r, ReadType(old(Left())))
    {
      if index == |bytes| || !IsDigit(bytes[index]) {
        return None;
      }
      var oid := ParseNumber();
      if oid.None? || !KnownType(oid.value) {
        return None;
      }
      r := oid;
    }

    method ParseDataLength() returns (r: Option<int>)
      requires Valid()
      modifies this`index
      ensures Valid() && bytes == old(bytes)
      ensures Took(r, ReadLength(old(Left())))
    {
      if index == |bytes| || bytes[index] != 's' {
        return None;
      }
      assert bytes[index..][1..] == bytes[index + 1..];
      index := index + 1;
      r := ParseNumber();
    }

    /** The length, the checks and convertDataType. */
    method ParseData(typ: nat) returns (r: Option<string>)
      requires Valid()
      modifies this`index
      ensures Valid() && bytes == old(bytes)
      ensures Took(r, ReadData(old(Left()), typ))
    {
      var len := ParseDataLength();
      if len.None? || index + len.value > |bytes| || index == |bytes| || bytes[index] != 'd' {
        return None;
      }
      if index + 1 + len.value > |bytes| || !ValueType(typ) || len.value < 0 {
        return None;
      }
      SliceOfTail(bytes, index, len.value);
      r := Some(bytes[index + 1..index + 1 + len.value]);
      index := index + 1 + len.value;
    }

    method ParseScalarParameter() returns (r: Option<Token>)
      requires Valid()
      modifies this`index
      ensures Valid() && bytes == old(bytes)
      ensures Took(r, ReadScalar(old(Left())))
    {
      var typ := ParseConstDataType();
      if typ.None? {
        return None;
      }
      var value := ParseData(typ.value);
      if value.None? {
        return None;
      }
      r := Some(Scalar(typ.value, value.value));
    }

    method ParseListParameter() returns (r: Option<Token>)
      requires Valid()
      modifies this`index
      ensures Valid() && bytes == old(bytes)
      ensures Took(r, ReadCollection(old(Left())))
    {
      var typ := ParseConstDataType();
      if typ.None? || ElementType(typ.value).None? {
        return None;
      }
      var data := ParseElements(ElementType(typ.value).value);
      if data.None? {
        return None;
      }
      r := Some(ListConst(typ.value, data.value));
    }

    /** The loop over the elements of a list. */
    method ParseElements(typ: nat) returns (r: Option<seq<string>>)
      requires Valid()
      modifies this`index
      ensures Valid() && bytes == old(bytes)
      ensures Took(r, ReadList(old(Left()), typ, []))
    {
      var data: seq<string> := [];
      ghost var spec := ReadList(Left(), typ, []);
      while index < |bytes| && bytes[index] == 's'
        invariant Valid() && bytes == old(bytes) && spec == ReadList(Left(), typ, data)
        decreases |bytes| - index
      {
        ghost var before := index;
        var value := ParseData(typ);
        if value.None? {
          return None;
        }
        assert |bytes| - index == |Left()|;
        data := data + [value.value];
      }
      if index == |bytes| {
        return None;
      }
      r := Some(data);
    }

    method ParseComparisonOperator() returns (ok: bool)
      requires Valid()
      modifies this
      ensures Valid() && bytes == old(bytes)
      ensures var read := ReadInteger(old(Left()));
              var pushed := if read.Some? && read.value.0 >= 0 then Compared(read.value.0, old(stack)) else None;
              if ok then pushed == Some(stack) && Left() == read.value.1 else pushed == None
    {
      var code := ParseNumber();
      if code.None? || ComparisonOperator(code.value).None? || stack == [] {
        return false;
      }
      var op, k := ComparisonOperator(code.value).value, |stack|;
      var right := stack[k - 1];
      if op == IS_NULL || op == IS_NOT_NULL {
        stack := stack[..k - 1] + [Unary(op, right)];
        return true;
      }
      if k == 1 || !stack[k - 2].IsOperand() || !right.IsOperand() {
        return false;
      }
      var left := stack[k - 2];
      var node := if left.ScalarOperand? then Binary(Transpose(op), right, left) else Binary(op, left, right);
      stack := stack[..k - 2] + [node];
      return true;
    }

    method ParseLogicalOperator() returns (ok: bool)
      requires Valid()
      modifies this
      ensures Valid() && bytes == old(bytes)
      ensures var read := ReadInteger(old(Left()));
              var pushed := if read.Some? && read.value.0 >= 0 then Connected(read.value.0, old(stack)) else None;
              if ok then pushed == Some(stack) && Left() == read.value.1 else pushed == None
    {
      var code := ParseNumber();
      if code.None? || LogicalOperator(code.value).None? {
        return false;
      }
      var op, k := LogicalOperator(code.value).value, |stack|;
      if op == NOT {
        if k == 0 {
          return false;
        }
        stack := stack[..k - 1] + [Unary(op, stack[k - 1])];
        return true;
      }
      if k < 2 || stack[k - 1].IsOperand() || stack[k - 2].IsOperand() {
        return false;
      }
      stack := stack[..k - 2] + [Binary(op, stack[k - 2], stack[k - 1])];
      return true;
    }

    /** The three kinds of operands. */
    method ParseOperand(op: char) returns (r: Option<Tree>)
      requires Valid() && (op == 'a' || op == 'c' || op == 'm')
      modifies this`index
      ensures Valid() && bytes == old(bytes)
      ensures var read := ReadToken([op] + old(Left()));
              if r.None? then read == None
              else read.Some? && Apply(read.value.0, stack) == Some(stack + [r.value]) && Left() == read.value.1
    {
      assert ([op] + Left())[1..] == Left();
      if op == 'a' {
        var column := ParseNumber();
        r := if column.None? then None else Some(ColumnIndex(column.value));
      } else if op == 'c' {
        var t := ParseScalarParameter();
        r := if t.None? then None else Some(ScalarOperand(t.value.typ, t.value.text));
      } else {
        var t := ParseListParameter();
        r := if t.None? then None else Some(Collection(t.value.typ, t.value.elems));
      }
    }

    /** The switch on the code letter. */
    method ParseCode(op: char) returns (ok: bool)
      requires Valid()
      modifies this
      ensures Valid() && bytes == old(bytes)
      ensures var turn := Turn([op] + old(Left()), old(stack));
              if ok then turn == Some((stack, Left())) else turn == None
    {
      assert ([op] + Left())[1..] == Left();
      if op == 'a' || op == 'c' || op == 'm' {
        var operand := ParseOperand(op);
        ok := operand.Some?;
        stack := if ok then stack + [operand.value] else stack;
      } else if op == 'o' {
        ok := ParseComparisonOperator();
      } else if op == 'l' {
        ok := ParseLogicalOperator();
      } else {
        ok := false;
      }
    }

    /** One turn of the loop. */
    method ParseNext() returns (ok: bool)
      requires Valid() && index < |bytes|
      modifies this
      ensures Valid() && bytes == old(bytes)
      ensures var turn := Turn(old(Left()), old(stack));
              if ok then turn == Some((stack, Left())) else turn == None
    {
      var op := bytes[index];
      assert bytes[index..] == [op] + bytes[index + 1..];
      index := index + 1;
      ok := ParseCode(op);
    }

    /** parse: a failed parse leaves its operands behind, a successful one an empty stack. */
    method ParseFilter(filter: string) returns (r: Option<Tree>)
      modifies this
      ensures r == Result(ParseFrom(filter, old(stack)))
      ensures r.Some? ==> stack == []
    {
      index, bytes := 0, filter;
      assert bytes[0..] == bytes;
      while index < |bytes|
        invariant Valid() && bytes == filter && ParseFrom(Left(), stack) == ParseFrom(filter, old(stack))
        decreases |Left()|
      {
        var ok := ParseNext();
        if !ok {
          return None;
        }
      }
      if stack == [] {
        return None;
      }
      var result := stack[|stack| - 1];
      stack := stack[..|stack| - 1];
      if stack != [] || result.IsOperand() {
        return None;
      }
      return Some(result);
    }
  }
}
