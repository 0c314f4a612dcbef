/**
 Documents as anybody may write them, with any white space and any spelling of strings and numbers
 (sections 2 to 7 of RFC 8259): the decoder takes exactly these, each for what it means.
 */
module JsonDocuments {
  import opened Decimal
  import opened JsonStrings
  import opened JsonCodec

  // ----- concrete syntax -----

  /**
   A character of a string literal: itself, a short escape, or four hexadecimal digits in either
   case; Python also takes 0x or 0X and two digits for four.
   */
  datatype Piece =
    | Raw(c: char)
    | Short(letter: char)
    | Code(unit: nat, upper: (bool, bool, bool, bool))
    | Prefixed(unit: nat, x: char, inUpper: (bool, bool))

  datatype Doc =
    | Literal(word: string)
    | Numeral(negative: bool, whole: nat, fraction: string, exponent: string)
    | Quoted(pieces: seq<Piece>)
    | Bracketed(inner: string, items: seq<Item>)
    | Braced(inner: string, members: seq<Pair>)

  /** A value with the white space around it. */
  datatype Item = Item(before: string, doc: Doc, after: string)

  datatype Pair = Pair(before: string, key: seq<Piece>, afterKey: string, item: Item)

  /** White space of RFC 8259, and the vertical tab and form feed that Python's \s takes, too. */
  predicate Blank(s: string) {
    forall i | 0 <= i < |s| :: s[i] in " \t\n\r" || s[i] as int == 0xb || s[i] as int == 0xc
  }

  predicate AllDigits(s: string) {
    forall i | 0 <= i < |s| :: IsDigit(s[i])
  }

  /** Nothing, or a point and digits. */
  predicate IsFraction(s: string) {
    s == "" || (|s| >= 2 && s[0] == '.' && AllDigits(s[1..]))
  }

  /** Nothing, or the letter e, a sign or none, and digits. */
  predicate IsExponent(s: string) {
    s == "" || (s[0] in "eE" && (DigitsOnly(s[1..]) || (|s| >= 2 && s[1] in "+-" && DigitsOnly(s[2..]))))
  }

  predicate DigitsOnly(s: string) {
    s != "" && AllDigits(s)
  }

  predicate WellSpelled(p: Piece) {
    match p
    case Raw(c) => c != '"' && c != '\\'
    case Short(letter) => letter in "\"\\/bfnrt"
    case Code(unit, _) => unit < 0x10000
    case Prefixed(unit, x, _) => unit < 0x100 && x in "xX"
  }

  predicate Literate(pieces: seq<Piece>) {
    forall i | 0 <= i < |pieces| :: WellSpelled(pieces[i])
  }

  predicate WellFormed(d: Doc) {
    match d
    case Literal(word) => word in {"null", "true", "false", "NaN", "Infinity", "-Infinity"}
    case Numeral(_, _, fraction, exponent) => IsFraction(fraction) && IsExponent(exponent)
    case Quoted(pieces) => Literate(pieces)
    case Bracketed(inner, items) => Blank(inner) && forall i | 0 <= i < |items| :: WellFormedItem(items[i])
    case Braced(inner, members) => Blank(inner) && forall i | 0 <= i < |members| :: WellFormedPair(members[i])
  }

  predicate WellFormedItems(items: seq<Item>) {
    forall i | 0 <= i < |items| :: WellFormedItem(items[i])
  }

  predicate WellFormedPairs(members: seq<Pair>) {
    forall i | 0 <= i < |members| :: WellFormedPair(members[i])
  }

  predicate WellFormedItem(i: Item) {
    Blank(i.before) && WellFormed(i.doc) && Blank(i.after)
  }

  predicate WellFormedPair(m: Pair) {
    Blank(m.before) && Literate(m.key) && Blank(m.afterKey) && WellFormedItem(m.item)
  }

  // ----- the text -----

  /** A hexadecimal digit in the case asked for. */
  function HexLetter(d: nat, upper: bool): char
    requires d < 16
  {
    if upper then "0123456789ABCDEF"[d] else "0123456789abcdef"[d]
  }

  function SpellPiece(p: Piece): string
    requires WellSpelled(p)
  {
    match p
    case Raw(c) => [c]
    case Short(letter) => ['\\', letter]
    case Code(unit, upper) =>
      ['\\', 'u', HexLetter(unit / 0x1000, upper.0), HexLetter(unit / 0x100 % 16, upper.1),
       HexLetter(unit / 0x10 % 16, upper.2), HexLetter(unit % 16, upper.3)]
    case Prefixed(unit, x, upper) =>
      ['\\', 'u', '0', x, HexLetter(unit / 0x10, upper.0), HexLetter(unit % 16, upper.1)]
  }

  function SpellPieces(pieces: seq<Piece>): string
    requires Literate(pieces)
  {
    if pieces == [] then "" else SpellPiece(pieces[0]) + SpellPieces(pieces[1..])
  }

  function SpellString(pieces: seq<Piece>): string
    requires Literate(pieces)
  {
    "\"" + SpellPieces(pieces) + "\""
  }

  function Sign(negative: bool): string {
    if negative then "-" else ""
  }

  function Spell(d: Doc): string
    requires WellFormed(d)
  {
    match d
    case Literal(word) => word
    case Numeral(negative, whole, fraction, exponent) => Sign(negative) + Digits(whole) + fraction + exponent
    case Quoted(pieces) => SpellString(pieces)
    case Bracketed(inner, items) => "[" + if items == [] then inner + "]" else SpellItems(items)
    case Braced(inner, members) => "{" + if members == [] then inner + "}" else SpellMembers(members)
  }

  function SpellItem(i: Item): string
    requires WellFormedItem(i)
  {
    i.before + Spell(i.doc) + i.after
  }

  function SpellItems(items: seq<Item>): string
    requires items != [] && WellFormedItems(items)
  {
    SpellItem(items[0]) + if |items| == 1 then "]" else "," + SpellItems(items[1..])
  }

  function SpellPair(m: Pair): string
    requires WellFormedPair(m)
  {
    m.before + SpellString(m.key) + m.afterKey + ":" + SpellItem(m.item)
  }

  function SpellMembers(members: seq<Pair>): string
    requires members != [] && WellFormedPairs(members)
  {
    SpellPair(members[0]) + if |members| == 1 then "}" else "," + SpellMembers(members[1..])
  }

  // ----- the meaning -----

  /** The character of a short escape. */
  function ShortMeans(letter: char): CodePoint {
    match letter
    case 'b' => 8
    case 't' => 9
    case 'n' => 10
    case 'f' => 12
    case 'r' => 13
    case _ => letter as int
  }

  function PieceMeans(p: Piece): CodePoint
    requires WellSpelled(p)
  {
    match p
    case Raw(c) => c as int
    case Short(letter) => ShortMeans(letter)
    case Code(unit, _) => unit
    case Prefixed(unit, _, _) => unit
  }

  function PiecesMean(pieces: seq<Piece>): Unicode
    requires Literate(pieces)
  {
    if pieces == [] then [] else [PieceMeans(pieces[0])] + PiecesMean(pieces[1..])
  }

  function LiteralMeans(word: string): Data {
    if word == "null" then Nothing
    else if word == "true" then Truth(true)
    else if word == "false" then Truth(false)
    else Float(word)
  }

  /** Without fraction and exponent a number is its integer, otherwise its text. */
  function NumeralMeans(d: Doc): Data
    requires d.Numeral?
  {
    if d.fraction == "" && d.exponent == "" then Number(if d.negative then -(d.whole as int) else d.whole)
    else Float(Sign(d.negative) + Digits(d.whole) + d.fraction + d.exponent)
  }

  function Means(d: Doc): Data
    requires WellFormed(d)
  {
    match d
    case Literal(word) => LiteralMeans(word)
    case Numeral(_, _, _, _) => NumeralMeans(d)
    case Quoted(pieces) => Text(PiecesMean(pieces))
    case Bracketed(_, items) => Array(ItemsMean(items))
    case Braced(_, members) => Object(MembersMean(members, map[]))
  }

  function ItemMeans(i: Item): Data
    requires WellFormedItem(i)
  {
    Means(i.doc)
  }

  function ItemsMean(items: seq<Item>): seq<Data>
    requires WellFormedItems(items)
  {
    if items == [] then [] else [ItemMeans(items[0])] + ItemsMean(items[1..])
  }

  /** A later member with the same key replaces an earlier one. */
  function MembersMean(members: seq<Pair>, pairs: map<Unicode, Data>): map<Unicode, Data>
    requires WellFormedPairs(members)
  {
    if members == [] then pairs
    else MembersMean(members[1..], pairs[PiecesMean(members[0].key) := ItemMeans(members[0].item)])
  }

  // ----- strings -----

  lemma HexLetterReads(d: nat, upper: bool)
    requires d < 16
    ensures IsHex(HexLetter(d, upper)) && HexValue(HexLetter(d, upper)) == d
  {
  }

  /** Four hexadecimal digits in any case are read as the number they denote. */
  lemma CodeReads(unit: nat, a: bool, b: bool, c: bool, d: bool)
    requires unit < 0x10000
    ensures FourHex(HexLetter(unit / 0x1000, a), HexLetter(unit / 0x100 % 16, b), HexLetter(unit / 0x10 % 16, c),
                    HexLetter(unit % 16, d)) == Some(unit)
  {
    HexLetterReads(unit / 0x1000, a);
    HexLetterReads(unit / 0x100 % 16, b);
    HexLetterReads(unit / 0x10 % 16, c);
    HexLetterReads(unit % 16, d);
    SumOfNibbles(unit);
  }

  const HEX_DIGITS := "0123456789abcdefABCDEF"

  lemma HexIsDigit(c: char)
    ensures IsHex(c) <==> c in HEX_DIGITS
  {
    if '0' <= c <= '9' {
      assert HEX_DIGITS[c as int - '0' as int] == c;
    } else if 'a' <= c <= 'f' {
      assert HEX_DIGITS[c as int - 'a' as int + 10] == c;
    } else if 'A' <= c <= 'F' {
      assert HEX_DIGITS[c as int - 'A' as int + 16] == c;
    }
  }

  /** Which four characters are taken: hexadecimal digits, or two of them behind 0x or 0X. */
  lemma FourHexIff(a: char, b: char, c: char, d: char)
    ensures FourHex(a, b, c, d).Some? <==>
            c in HEX_DIGITS && d in HEX_DIGITS && ((a in HEX_DIGITS && b in HEX_DIGITS) || (a == '0' && b in "xX"))
  {
    HexIsDigit(a);
    HexIsDigit(b);
    HexIsDigit(c);
    HexIsDigit(d);
  }

  lemma PrefixedCodeReads(n: nat, x: char, c: bool, d: bool)
    requires n < 0x100 && x in "xX"
    ensures FourHex('0', x, HexLetter(n / 0x10, c), HexLetter(n % 16, d)) == Some(n)
  {
    HexLetterReads(n / 0x10, c);
    HexLetterReads(n % 16, d);
  }

  lemma ShortReads(letter: char)
    requires letter in "\"\\/bfnrt"
    ensures Backslash(letter) == Some(ShortMeans(letter)) && letter != 'u'
  {
  }

  lemma PieceScanned(p: Piece, rest: string)
    requires WellSpelled(p)
    ensures Scan(SpellPiece(p) + rest) == Prepend([PieceMeans(p)], Scan(rest))
  {
    var t := SpellPiece(p);
    match p {
      case Raw(c) =>
        assert ([c] + rest)[1..] == rest;
      case Short(letter) =>
        ShortReads(letter);
        ScanOfShort(letter, ShortMeans(letter), rest);
      case Code(unit, upper) =>
        CodeReads(unit, upper.0, upper.1, upper.2, upper.3);
        CodeScanned(t, unit, rest);
      case Prefixed(unit, x, upper) =>
        PrefixedCodeReads(unit, x, upper.0, upper.1);
        CodeScanned(t, unit, rest);
    }
  }

  lemma CodeScanned(t: string, unit: CodePoint, rest: string)
    requires |t| == 6 && t[0] == '\\' && t[1] == 'u' && FourHex(t[2], t[3], t[4], t[5]) == Some(unit)
    ensures Scan(t + rest) == Prepend([unit], Scan(rest))
  {
    var s := t + rest;
    assert s[6..] == rest && s[1..][0] == 'u' && s[1..][1] == t[2] && s[1..][2] == t[3];
    assert s[1..][3] == t[4] && s[1..][4] == t[5] && Escape(s[1..]) == Some((unit, 5));
  }

  lemma {:induction false} PiecesScanned(pieces: seq<Piece>, rest: string)
    requires Literate(pieces)
    ensures Scan(SpellPieces(pieces) + ("\"" + rest)) == Some((PiecesMean(pieces), rest))
  {
    var tail := "\"" + rest;
    if pieces == [] {
      assert SpellPieces(pieces) + tail == tail && tail[1..] == rest;
    } else {
      JsonStrings.Regroup(SpellPiece(pieces[0]), SpellPieces(pieces[1..]), tail);
      PieceScanned(pieces[0], SpellPieces(pieces[1..]) + tail);
      PiecesScanned(pieces[1..], rest);
    }
  }

  lemma StringScanned(pieces: seq<Piece>, rest: string)
    requires Literate(pieces)
    ensures var t := SpellString(pieces) + rest;
            t[0] == '"' && Scan(t[1..]) == Some((PiecesMean(pieces), rest)) &&
            Parse(t) == Some((Text(PiecesMean(pieces)), rest))
  {
    Unquoted(SpellPieces(pieces), rest);
    PiecesScanned(pieces, rest);
    StringStep(SpellString(pieces) + rest, PiecesMean(pieces), rest);
  }

  // ----- white space -----

  /** What may follow a value. */
  predicate Apart(s: string) {
    s == "" || IsSpace(s[0]) || s[0] == ',' || s[0] == ']' || s[0] == '}'
  }

  predicate Solid(s: string) {
    s == "" || !IsSpace(s[0])
  }

  lemma {:induction false} BlankSkipped(space: string, s: string)
    requires Blank(space) && Solid(s)
    ensures Skip(space + s) == s
    ensures Apart(s) ==> Apart(space + s)
  {
    if space == "" {
      assert space + s == s;
    } else {
      assert space[0] in space && (space + s)[1..] == space[1..] + s;
      BlankSkipped(space[1..], s);
    }
  }

  // ----- numbers -----

  lemma {:induction false} DigitsDropped(digits: string, rest: string)
    requires AllDigits(digits) && NoLeadingDigit(rest)
    ensures DropDigits(digits + rest) == rest
  {
    if digits == "" {
      assert digits + rest == rest;
    } else {
      assert digits[0] in digits && (digits + rest)[1..] == digits[1..] + rest;
      DigitsDropped(digits[1..], rest);
    }
  }

  /** No digit, point or letter e. */
  predicate Ends(s: string) {
    s == "" || (!IsDigit(s[0]) && s[0] != '.' && s[0] != 'e' && s[0] != 'E')
  }

  lemma FractionDropped(fraction: string, rest: string)
    requires IsFraction(fraction) && NoLeadingDigit(rest) && (rest == "" || rest[0] != '.')
    ensures DropFraction(fraction + rest) == rest && NoLeadingDigit(fraction + rest)
  {
    if fraction == "" {
      assert fraction + rest == rest;
    } else {
      var s := fraction + rest;
      assert s[1..] == fraction[1..] + rest && s[1] == fraction[1..][0];
      assert fraction[1..][0] in fraction[1..];
      DigitsDropped(fraction[1..], rest);
    }
  }

  lemma ExponentDropped(exponent: string, rest: string)
    requires IsExponent(exponent) && Ends(rest)
    ensures DropExponent(exponent + rest) == rest
    ensures NoLeadingDigit(exponent + rest) && (exponent + rest == "" || (exponent + rest)[0] != '.')
  {
    var s := exponent + rest;
    if exponent == "" {
      assert s == rest;
    } else if DigitsOnly(exponent[1..]) {
      UnsignedDropped(s, exponent[1..], rest);
    } else {
      SignedDropped(s, exponent[1], exponent[2..], rest);
    }
  }

  lemma UnsignedDropped(s: string, digits: string, rest: string)
    requires s != "" && s[0] in "eE" && s[1..] == digits + rest && DigitsOnly(digits) && NoLeadingDigit(rest)
    ensures DropExponent(s) == rest
  {
    assert digits[0] in digits && s[1] == (digits + rest)[0];
    DigitsDropped(digits, rest);
  }

  lemma SignedDropped(s: string, sign: char, digits: string, rest: string)
    requires |s| >= 2 && s[0] in "eE" && s[1] == sign && sign in "+-" && s[2..] == digits + rest
    requires DigitsOnly(digits) && NoLeadingDigit(rest)
    ensures DropExponent(s) == rest
  {
    assert digits[0] in digits && s[2..][0] == digits[0];
    DigitsDropped(digits, rest);
  }

  /** The whole part, and what follows it. */
  lemma WholeRead(n: nat, rest: string)
    requires NoLeadingDigit(rest)
    ensures ScanNatural(Digits(n) + rest) == Some((n, rest))
    ensures Digits(n) != [] && IsDigit((Digits(n) + rest)[0])
  {
    ReadNatOfDigits(n, rest);
    DigitsAreDigits(n);
    assert (Digits(n) + rest)[0] == Digits(n)[0];
    if n == 0 {
      assert (Digits(n) + rest)[1..] == rest;
    }
  }

  lemma NumeralParsed(d: Doc, rest: string)
    requires d.Numeral? && WellFormed(d) && Ends(rest)
    ensures Parse(Spell(d) + rest) == Some((NumeralMeans(d), rest))
  {
    var t := d.fraction + (d.exponent + rest);
    var s := Digits(d.whole) + t;
    ExponentDropped(d.exponent, rest);
    FractionDropped(d.fraction, d.exponent + rest);
    WholeRead(d.whole, t);
    NumeralText(Sign(d.negative), Digits(d.whole), d.fraction, d.exponent, rest);
    if d.negative {
      assert ("-" + s)[1..] == s;
      NegativeStep("-" + s, s);
      AtomStep("-" + s);
      NumberCut("-" + s, s, d, rest);
    } else {
      assert "" + s == s;
      PositiveStep(s);
      AtomStep(s);
      NumberCut(s, s, d, rest);
    }
  }

  lemma NumeralText(sign: string, whole: string, fraction: string, exponent: string, rest: string)
    ensures sign + whole + fraction + exponent + rest == sign + (whole + (fraction + (exponent + rest)))
  {
  }

  lemma NumberCut(s: string, t: string, d: Doc, rest: string)
    requires d.Numeral? && WellFormed(d) && s == Spell(d) + rest && s != ""
    requires t == (if s[0] == '-' then s[1..] else s) && (s[0] == '-' <==> d.negative)
    requires ScanNatural(t) == Some((d.whole, d.fraction + (d.exponent + rest)))
    requires DropExponent(DropFraction(d.fraction + (d.exponent + rest))) == rest
    ensures ScanNumber(s) == Some((NumeralMeans(d), rest))
  {
    assert s[..|s| - |rest|] == Spell(d);
    assert |d.fraction + (d.exponent + rest)| == |d.fraction| + |d.exponent| + |rest|;
    if d.fraction == "" && d.exponent == "" {
      assert d.fraction + (d.exponent + rest) == rest;
    }
  }

  lemma LiteralParsed(word: string, rest: string)
    requires word in {"null", "true", "false", "NaN", "Infinity", "-Infinity"}
    ensures Parse(word + rest) == Some((LiteralMeans(word), rest))
  {
    var s := word + rest;
    assert s[0] == word[0] && Word(word[0]) == word && s[|word|..] == rest;
    AtomStep(s);
    LiteralsDiffer(word);
  }

  lemma LiteralsDiffer(word: string)
    requires word in {"null", "true", "false", "NaN", "Infinity", "-Infinity"}
    ensures WordValue(word[0]) == LiteralMeans(word)
  {
  }

  // ----- lists and objects -----

  /** A value does not start with white space or a closing bracket. */
  lemma SpellStarts(d: Doc, rest: string)
    requires WellFormed(d)
    ensures Starts(Spell(d) + rest)
  {
    assert (Spell(d) + rest)[0] == Spell(d)[0] by {
      if d.Numeral? {
        DigitsAreDigits(d.whole);
      }
    }
    if d.Numeral? {
      NumeralStarts(d);
    }
  }

  lemma NumeralStarts(d: Doc)
    requires d.Numeral? && WellFormed(d)
    ensures Spell(d) != "" && (Spell(d)[0] == '-' || IsDigit(Spell(d)[0]))
  {
    DigitsAreDigits(d.whole);
    var n := Digits(d.whole);
    assert n[0] in n;
    assert Spell(d)[0] == if d.negative then '-' else n[0];
  }

  /** From the start of the white space before it, a value is read with what follows it. */
  lemma ItemRead(i: Item, next: string, t: string)
    requires WellFormedItem(i) && t == SpellItem(i) + next
    ensures Skip(t) == Spell(i.doc) + (i.after + next) && Starts(Skip(t))
  {
    SpellStarts(i.doc, i.after + next);
    ThreeThen(i.before, Spell(i.doc), i.after, next);
    BlankSkipped(i.before, Spell(i.doc) + (i.after + next));
  }

  lemma ThreeThen(a: string, b: string, c: string, d: string)
    ensures a + b + c + d == a + (b + (c + d))
  {
  }

  lemma AfterLast(s: string, value: Data, after: string, rest: string, values: seq<Data>)
    requires Parse(s) == Some((value, after + ("]" + rest))) && Blank(after)
    ensures ParseItems(s, values) == Some((Array(values + [value]), rest))
  {
    BlankSkipped(after, "]" + rest);
    assert ("]" + rest)[1..] == rest;
  }

  lemma AfterComma(s: string, value: Data, after: string, next: string, values: seq<Data>)
    requires Parse(s) == Some((value, after + ("," + next))) && Blank(after)
    ensures ParseItems(s, values) == ParseItems(Skip(next), values + [value])
  {
    BlankSkipped(after, "," + next);
    assert ("," + next)[1..] == next;
  }

  lemma {:induction false} ItemsParsed(items: seq<Item>, rest: string, values: seq<Data>)
    requires items != [] && WellFormedItems(items)
    ensures ParseItems(Skip(SpellItems(items) + rest), values) == Some((Array(values + ItemsMean(items)), rest))
    ensures Starts(Skip(SpellItems(items) + rest))
    decreases items, 1
  {
    var i, later := items[0], items[1..];
    var tail := if |items| == 1 then "]" else "," + SpellItems(later);
    var t := SpellItems(items) + rest;
    JsonStrings.Regroup(SpellItem(i), tail, rest);
    ItemRead(i, tail + rest, t);
    ApartAfter(i.after, tail + rest);
    DocParsed(i.doc, i.after + (tail + rest));
    if |items| == 1 {
      AfterLast(Skip(t), Means(i.doc), i.after, rest, values);
      assert ItemsMean(items) == [Means(i.doc)];
    } else {
      JsonStrings.Regroup(",", SpellItems(later), rest);
      AfterComma(Skip(t), Means(i.doc), i.after, SpellItems(later) + rest, values);
      ItemsParsed(later, rest, values + [Means(i.doc)]);
      assert values + [Means(i.doc)] + ItemsMean(later) == values + ItemsMean(items);
    }
  }

  lemma ApartAfter(after: string, s: string)
    requires Blank(after) && s != "" && s[0] in ",]}"
    ensures Apart(after + s)
  {
    BlankSkipped(after, s);
  }

  lemma BracketStep(t: string, s: string)
    requires s == "[" + t && Starts(Skip(t))
    ensures Parse(s) == ParseItems(Skip(t), [])
  {
    assert s[0] == '[' && s[1..] == t;
  }

  lemma EmptyParsed(inner: string, rest: string)
    requires Blank(inner)
    ensures Parse("[" + (inner + ("]" + rest))) == Some((Array([]), rest))
    ensures Parse("{" + (inner + ("}" + rest))) == Some((Object(map[]), rest))
  {
    var list, braces := inner + ("]" + rest), inner + ("}" + rest);
    BlankSkipped(inner, "]" + rest);
    BlankSkipped(inner, "}" + rest);
    assert ("[" + list)[1..] == list && ("]" + rest)[1..] == rest;
    assert ("{" + braces)[1..] == braces && ("}" + rest)[1..] == rest;
  }

  /** From the white space before its key, a member is read up to the white space after its value. */
  lemma PairRead(m: Pair, next: string, t: string)
    requires WellFormedPair(m) && t == SpellPair(m) + next && next != "" && next[0] in ",]}"
    ensures Skip(t) != "" && Skip(t)[0] == '"'
    ensures ParseMember(Skip(t)[1..]) == Some((PiecesMean(m.key), ItemMeans(m.item), m.item.after + next))
    decreases m.item, 1
  {
    var value := SpellItem(m.item) + next;
    var colon := m.afterKey + (":" + value);
    PairText(m.before, SpellString(m.key), m.afterKey, SpellItem(m.item), next);
    StringScanned(m.key, colon);
    BlankSkipped(m.before, SpellString(m.key) + colon);
    BlankSkipped(m.afterKey, ":" + value);
    ItemRead(m.item, next, value);
    ApartAfter(m.item.after, next);
    assert WellFormedItem(m.item);
    DocParsed(m.item.doc, m.item.after + next);
    KeyThenValue(Skip(t)[1..], PiecesMean(m.key), colon, value, ItemMeans(m.item), m.item.after + next);
  }

  lemma PairText(before: string, key: string, afterKey: string, value: string, next: string)
    ensures before + key + afterKey + ":" + value + next == before + (key + (afterKey + (":" + (value + next))))
  {
  }

  lemma KeyThenValue(s: string, key: Unicode, colon: string, value: string, data: Data, after: string)
    requires Scan(s) == Some((key, colon)) && Skip(colon) == ":" + value && Parse(Skip(value)) == Some((data, after))
    ensures ParseMember(s) == Some((key, data, after))
  {
    assert (":" + value)[1..] == value;
  }

  lemma AfterLastPair(s: string, key: Unicode, value: Data, after: string, rest: string, pairs: map<Unicode, Data>)
    requires ParseMember(s) == Some((key, value, after + ("}" + rest))) && Blank(after)
    ensures ParseMembers(s, pairs) == Some((Object(pairs[key := value]), rest))
  {
    BlankSkipped(after, "}" + rest);
    assert ("}" + rest)[1..] == rest;
  }

  lemma AfterPairComma(s: string, key: Unicode, value: Data, after: string, next: string, pairs: map<Unicode, Data>)
    requires ParseMember(s) == Some((key, value, after + ("," + next))) && Blank(after)
    requires Skip(next) != "" && Skip(next)[0] == '"'
    ensures ParseMembers(s, pairs) == ParseMembers(Skip(next)[1..], pairs[key := value])
  {
    BlankSkipped(after, "," + next);
    assert ("," + next)[1..] == next;
  }

  lemma {:induction false} MembersParsed(members: seq<Pair>, rest: string, pairs: map<Unicode, Data>)
    requires members != [] && WellFormedPairs(members)
    ensures Skip(SpellMembers(members) + rest) != "" && Skip(SpellMembers(members) + rest)[0] == '"'
    ensures ParseMembers(Skip(SpellMembers(members) + rest)[1..], pairs) ==
            Some((Object(MembersMean(members, pairs)), rest))
    decreases members, 1
  {
    var m, later := members[0], members[1..];
    var tail := if |members| == 1 then "}" else "," + SpellMembers(later);
    var t := SpellMembers(members) + rest;
    var key, value := PiecesMean(m.key), ItemMeans(m.item);
    JsonStrings.Regroup(SpellPair(m), tail, rest);
    PairRead(m, tail + rest, t);
    if |members| == 1 {
      AfterLastPair(Skip(t)[1..], key, value, m.item.after, rest, pairs);
    } else {
      JsonStrings.Regroup(",", SpellMembers(later), rest);
      MembersParsed(later, rest, pairs[key := value]);
      AfterPairComma(Skip(t)[1..], key, value, m.item.after, SpellMembers(later) + rest, pairs);
    }
  }

  lemma BraceStep(t: string, s: string)
    requires s == "{" + t && Skip(t) != "" && Skip(t)[0] == '"'
    ensures Parse(s) == ParseMembers(Skip(t)[1..], map[])
  {
    assert s[0] == '{' && s[1..] == t;
  }

  /** Any well-formed value, however it is spelled, is read as what it means. */
  lemma {:induction false} DocParsed(d: Doc, rest: string)
    requires WellFormed(d) && Apart(rest)
    ensures Parse(Spell(d) + rest) == Some((Means(d), rest))
    decreases d, 0
  {
    match d {
      case Literal(word) => LiteralParsed(word, rest);
      case Numeral(_, _, _, _) => NumeralParsed(d, rest);
      case Quoted(pieces) => StringScanned(pieces, rest);
      case Bracketed(inner, items) =>
        if items == [] {
          JsonStrings.Regroup("[", inner + "]", rest);
          JsonStrings.Regroup(inner, "]", rest);
          EmptyParsed(inner, rest);
        } else {
          JsonStrings.Regroup("[", SpellItems(items), rest);
          ItemsParsed(items, rest, []);
          BracketStep(SpellItems(items) + rest, Spell(d) + rest);
          assert [] + ItemsMean(items) == ItemsMean(items);
        }
      case Braced(inner, members) =>
        if members == [] {
          JsonStrings.Regroup("{", inner + "}", rest);
          JsonStrings.Regroup(inner, "}", rest);
          EmptyParsed(inner, rest);
        } else {
          JsonStrings.Regroup("{", SpellMembers(members), rest);
          MembersParsed(members, rest, map[]);
          BraceStep(SpellMembers(members) + rest, Spell(d) + rest);
        }
    }
  }

  /** A document is a value with white space around it. */
  lemma EveryDocumentDecodes(i: Item)
    requires WellFormedItem(i)
    ensures Decode(SpellItem(i)) == Some(Means(i.doc))
  {
    assert SpellItem(i) + "" == SpellItem(i) && i.after + "" == i.after;
    ItemRead(i, "", SpellItem(i));
    BlankSkipped(i.after, "");
    DocParsed(i.doc, i.after);
  }

  // ----- and nothing else is taken -----

  lemma {:induction false} SkippedIsBlank(s: string) returns (space: string)
    ensures Blank(space) && s == space + Skip(s) && Solid(Skip(s))
  {
    if s != "" && IsSpace(s[0]) {
      var later := SkippedIsBlank(s[1..]);
      space := [s[0]] + later;
    } else {
      space := "";
    }
  }

  lemma HexCase(c: char) returns (upper: bool)
    requires IsHex(c)
    ensures c == HexLetter(HexValue(c), upper)
  {
    upper := 'A' <= c <= 'F';
  }

  lemma LastNibble(n: nat, z: nat)
    requires z < 16
    ensures (n * 16 + z) / 16 == n && (n * 16 + z) % 16 == z
  {
  }

  lemma NibblesOfSum(w: nat, x: nat, y: nat, z: nat, n: nat)
    requires w < 16 && x < 16 && y < 16 && z < 16 && n == w * 0x1000 + x * 0x100 + y * 0x10 + z
    ensures n < 0x10000 && n / 0x1000 == w && n / 0x100 % 16 == x && n / 0x10 % 16 == y && n % 16 == z
  {
    LastNibble((w * 16 + x) * 16 + y, z);
    LastNibble(w * 16 + x, y);
    LastNibble(w, x);
    assert n == ((w * 16 + x) * 16 + y) * 16 + z;
    assert n / 0x100 == n / 16 / 16 && n / 0x1000 == n / 16 / 16 / 16;
  }

  lemma FourAreSpelled(a: char, b: char, c: char, d: char) returns (p: Piece)
    requires IsHex(a) && IsHex(b) && IsHex(c) && IsHex(d)
    ensures WellSpelled(p) && SpellPiece(p) == ['\\', 'u', a, b, c, d] && FourHex(a, b, c, d) == Some(PieceMeans(p))
  {
    var n := HexValue(a) * 0x1000 + HexValue(b) * 0x100 + HexValue(c) * 0x10 + HexValue(d);
    NibblesOfSum(HexValue(a), HexValue(b), HexValue(c), HexValue(d), n);
    var u0 := HexCase(a);
    var u1 := HexCase(b);
    var u2 := HexCase(c);
    var u3 := HexCase(d);
    p := Code(n, (u0, u1, u2, u3));
  }

  lemma PrefixedSpells(n: nat, x: char, c: char, d: char, u: bool, v: bool)
    requires n < 0x100 && x in "xX" && c == HexLetter(n / 0x10, u) && d == HexLetter(n % 16, v)
    ensures WellSpelled(Prefixed(n, x, (u, v))) && SpellPiece(Prefixed(n, x, (u, v))) == ['\\', 'u', '0', x, c, d]
  {
  }

  lemma TwoAreSpelled(x: char, c: char, d: char) returns (p: Piece)
    requires x in "xX" && IsHex(c) && IsHex(d)
    ensures WellSpelled(p) && SpellPiece(p) == ['\\', 'u', '0', x, c, d]
    ensures FourHex('0', x, c, d) == Some(PieceMeans(p))
  {
    var u := HexCase(c);
    var v := HexCase(d);
    var n := HexValue(c) * 16 + HexValue(d);
    LastNibble(HexValue(c), HexValue(d));
    PrefixedSpells(n, x, c, d, u, v);
    PrefixedCodeReads(n, x, u, v);
    p := Prefixed(n, x, (u, v));
  }

  lemma CodeIsSpelled(a: char, b: char, c: char, d: char) returns (p: Piece)
    requires FourHex(a, b, c, d).Some?
    ensures WellSpelled(p) && SpellPiece(p) == ['\\', 'u', a, b, c, d] && FourHex(a, b, c, d) == Some(PieceMeans(p))
  {
    if IsHex(a) && IsHex(b) {
      p := FourAreSpelled(a, b, c, d);
    } else {
      p := TwoAreSpelled(b, c, d);
    }
  }

  /** What one turn of the scanner takes is a piece. */
  lemma EscapeIsSpelled(s: string) returns (p: Piece)
    requires Escape(s).Some?
    ensures WellSpelled(p) && PieceMeans(p) == Escape(s).value.0
    ensures SpellPiece(p) == ['\\'] + s[..Escape(s).value.1]
  {
    if s[0] != 'u' {
      p := Short(s[0]);
    } else {
      p := CodeIsSpelled(s[1], s[2], s[3], s[4]);
      assert s[..5] == ['u', s[1], s[2], s[3], s[4]];
    }
  }

  lemma {:induction false} ScannedIsSpelled(s: string) returns (pieces: seq<Piece>)
    requires Scan(s).Some?
    ensures Literate(pieces) && Scan(s).value.0 == PiecesMean(pieces)
    ensures s == SpellPieces(pieces) + ("\"" + Scan(s).value.1)
  {
    if s[0] == '"' {
      pieces := [];
      assert s == "" + ("\"" + s[1..]);
    } else {
      var p, len := Raw(s[0]), 1;
      if s[0] == '\\' {
        p := EscapeIsSpelled(s[1..]);
        len := 1 + Escape(s[1..]).value.1;
        assert s[..len] == ['\\'] + s[1..][..len - 1];
      }
      var later := ScannedIsSpelled(s[len..]);
      pieces := [p] + later;
      OnePieceMore(s, len, p, later, Scan(s).value.1);
    }
  }

  lemma OnePieceMore(s: string, len: nat, p: Piece, later: seq<Piece>, rest: string)
    requires len <= |s| && WellSpelled(p) && Literate(later) && s[..len] == SpellPiece(p)
    requires s[len..] == SpellPieces(later) + ("\"" + rest)
    ensures s == SpellPieces([p] + later) + ("\"" + rest) &&
            PiecesMean([p] + later) == [PieceMeans(p)] + PiecesMean(later)
  {
    assert ([p] + later)[1..] == later && s == s[..len] + s[len..];
    JsonStrings.Regroup(SpellPiece(p), SpellPieces(later), "\"" + rest);
  }

  lemma StringIsSpelled(s: string) returns (pieces: seq<Piece>)
    requires s != "" && s[0] == '"' && Scan(s[1..]).Some?
    ensures Literate(pieces) && Scan(s[1..]).value.0 == PiecesMean(pieces)
    ensures s == SpellString(pieces) + Scan(s[1..]).value.1
  {
    pieces := ScannedIsSpelled(s[1..]);
    var rest := Scan(s[1..]).value.1;
    assert s == "\"" + s[1..];
    QuotesAround(SpellPieces(pieces), rest);
  }

  lemma QuotesAround(body: string, rest: string)
    ensures "\"" + (body + ("\"" + rest)) == "\"" + body + "\"" + rest
  {
  }

  lemma {:induction false} DroppedAreDigits(s: string) returns (digits: string)
    ensures AllDigits(digits) && s == digits + DropDigits(s)
    ensures s != "" && IsDigit(s[0]) ==> digits != ""
  {
    if s != "" && IsDigit(s[0]) {
      var later := DroppedAreDigits(s[1..]);
      digits := [s[0]] + later;
    } else {
      digits := "";
    }
  }

  lemma DroppedIsFraction(s: string) returns (fraction: string)
    ensures IsFraction(fraction) && s == fraction + DropFraction(s)
  {
    fraction := "";
    if |s| >= 2 && s[0] == '.' && IsDigit(s[1]) {
      var digits := DroppedAreDigits(s[1..]);
      fraction := "." + digits;
      assert fraction[1..] == digits && s == "." + s[1..];
    }
  }

  lemma DroppedIsExponent(s: string) returns (exponent: string)
    ensures IsExponent(exponent) && s == exponent + DropExponent(s)
  {
    exponent := "";
    if s != "" && s[0] in "eE" {
      var skip := if |s| >= 2 && s[1] in "+-" then 2 else 1;
      if s[skip..] != "" && IsDigit(s[skip..][0]) {
        var digits := DroppedAreDigits(s[skip..]);
        exponent := s[..skip] + digits;
        assert exponent[skip..] == digits && s == s[..skip] + s[skip..];
      }
    }
  }

  lemma {:induction false} ReadIsDigits(s: string, acc: nat)
    requires acc > 0
    ensures Digits(acc) + s == Digits(ReadDigits(s, acc).0) + ReadDigits(s, acc).1
  {
    if s != "" && IsDigit(s[0]) {
      var next := 10 * acc + DigitValue(s[0]);
      assert next / 10 == acc && next % 10 == DigitValue(s[0]);
      assert Digits(next) == Digits(acc) + [s[0]] && s == [s[0]] + s[1..];
      ReadIsDigits(s[1..], next);
    }
  }

  lemma NaturalIsDigits(s: string)
    requires ScanNatural(s).Some?
    ensures s == Digits(ScanNatural(s).value.0) + ScanNatural(s).value.1
  {
    assert s == [s[0]] + s[1..];
    if s[0] != '0' {
      assert ReadDigits(s, 0) == ReadDigits(s[1..], DigitValue(s[0])) && Digits(DigitValue(s[0])) == [s[0]];
      ReadIsDigits(s[1..], DigitValue(s[0]));
    }
  }

  lemma NumberIsSpelled(s: string) returns (d: Doc)
    requires ScanNumber(s).Some?
    ensures WellFormed(d) && s == Spell(d) + ScanNumber(s).value.1 && Means(d) == ScanNumber(s).value.0
  {
    var negative := s != "" && s[0] == '-';
    var t := if negative then s[1..] else s;
    NaturalIsDigits(t);
    var (n, rest) := ScanNatural(t).value;
    var fraction := DroppedIsFraction(rest);
    var exponent := DroppedIsExponent(DropFraction(rest));
    var end := DropExponent(DropFraction(rest));
    d := Numeral(negative, n, fraction, exponent);
    assert s == Sign(negative) + t;
    SignedText(s, t, d, rest, end);
    NumberCut(s, t, d, end);
  }

  lemma SignedText(s: string, t: string, d: Doc, rest: string, end: string)
    requires d.Numeral? && WellFormed(d) && s == Sign(d.negative) + t && t == Digits(d.whole) + rest
    requires rest == d.fraction + (d.exponent + end)
    ensures s == Spell(d) + end
  {
    NumeralText(Sign(d.negative), Digits(d.whole), d.fraction, d.exponent, end);
  }

  lemma AtomIsSpelled(s: string) returns (d: Doc)
    requires ScanAtom(s).Some?
    ensures WellFormed(d) && s == Spell(d) + ScanAtom(s).value.1 && Means(d) == ScanAtom(s).value.0
  {
    if ScanConstant(s).Some? {
      d := Literal(Word(s[0]));
      LiteralsDiffer(Word(s[0]));
    } else {
      d := NumberIsSpelled(s);
    }
  }

  /** An item with white space put before it. */
  lemma SpacedItems(space: string, items: seq<Item>) returns (spaced: seq<Item>)
    requires Blank(space) && items != [] && WellFormedItems(items) && items[0].before == ""
    ensures WellFormedItems(spaced) && |spaced| == |items| && SpellItems(spaced) == space + SpellItems(items)
    ensures ItemsMean(spaced) == ItemsMean(items)
  {
    var first := items[0].(before := space);
    spaced := [first] + items[1..];
    var tail := if |items| == 1 then "]" else "," + SpellItems(items[1..]);
    assert spaced[1..] == items[1..] && SpellItem(first) == space + SpellItem(items[0]);
    JsonStrings.Regroup(space, SpellItem(items[0]), tail);
  }

  lemma UnspacedItem(d: Doc, space: string) returns (item: Item)
    requires WellFormed(d) && Blank(space)
    ensures WellFormedItem(item) && item.before == "" && SpellItem(item) == Spell(d) + space
    ensures ItemMeans(item) == Means(d)
  {
    item := Item("", d, space);
  }

  lemma OneItem(item: Item)
    requires WellFormedItem(item)
    ensures WellFormedItems([item]) && SpellItems([item]) == SpellItem(item) + "]"
    ensures ItemsMean([item]) == [ItemMeans(item)]
  {
    assert [item][1..] == [];
  }

  lemma ConsItem(item: Item, later: seq<Item>)
    requires WellFormedItem(item) && later != [] && WellFormedItems(later)
    ensures WellFormedItems([item] + later)
    ensures SpellItems([item] + later) == SpellItem(item) + ("," + SpellItems(later))
    ensures ItemsMean([item] + later) == [ItemMeans(item)] + ItemsMean(later)
  {
    assert ([item] + later)[1..] == later;
  }

  /** After a value: the end of the list, or a comma and more items. */
  lemma ItemTurn(s: string, values: seq<Data>, data: Data, after: string, t: string)
    requires ParseItems(s, values).Some? && Parse(s) == Some((data, after)) && t == Skip(after)
    ensures t != "" && (t[0] == ']' || t[0] == ',')
    ensures ParseItems(s, values) ==
            if t[0] == ']' then Some((Array(values + [data]), t[1..])) else ParseItems(Skip(t[1..]), values + [data])
  {
  }

  lemma {:induction false} ItemsAreSpelled(s: string, values: seq<Data>) returns (items: seq<Item>)
    requires ParseItems(s, values).Some?
    ensures items != [] && WellFormedItems(items) && items[0].before == ""
    ensures s == SpellItems(items) + ParseItems(s, values).value.1
    ensures ParseItems(s, values).value.0 == Array(values + ItemsMean(items))
    decreases |s|, 3
  {
    var (data, after) := Parse(s).value;
    var d := ParsedIsSpelled(s);
    var space := SkippedIsBlank(after);
    var t := Skip(after);
    var item := UnspacedItem(d, space);
    JsonStrings.Regroup(Spell(d), space, t);
    ItemTurn(s, values, data, after, t);
    if t[0] == ']' {
      items := [item];
      OneItem(item);
      LastSpelled(s, SpellItem(item), "]", t);
    } else {
      items := ItemThenItems(s, values, data, item, t);
    }
  }

  lemma ItemThenItems(s: string, values: seq<Data>, data: Data, item: Item, t: string) returns (items: seq<Item>)
    requires WellFormedItem(item) && item.before == "" && ItemMeans(item) == data && s == SpellItem(item) + t
    requires t != "" && t[0] == ',' && ParseItems(Skip(t[1..]), values + [data]).Some?
    ensures items != [] && WellFormedItems(items) && items[0].before == ""
    ensures s == SpellItems(items) + ParseItems(Skip(t[1..]), values + [data]).value.1
    ensures ParseItems(Skip(t[1..]), values + [data]).value.0 == Array(values + ItemsMean(items))
    decreases |s|, 1
  {
    var before := SkippedIsBlank(t[1..]);
    var next := Skip(t[1..]);
    var more := ItemsAreSpelled(next, values + [data]);
    var later := SpacedItems(before, more);
    items := [item] + later;
    ConsItem(item, later);
    assert values + [data] + ItemsMean(later) == values + ([data] + ItemsMean(later));
    MoreSpelled(s, SpellItem(item), t, before, SpellItems(more), ParseItems(next, values + [data]).value.1);
  }

  lemma LastSpelled(s: string, item: string, close: string, t: string)
    requires s == item + t && |close| == 1 && t != "" && t[0] == close[0]
    ensures s == item + close + t[1..]
  {
    assert t == close + t[1..];
  }

  lemma MoreSpelled(s: string, item: string, t: string, before: string, more: string, rest: string)
    requires s == item + t && t != "" && t[0] == ',' && t[1..] == before + (more + rest)
    ensures s == item + ("," + (before + more)) + rest
  {
    assert t == "," + t[1..];
    JsonStrings.Regroup(before, more, rest);
    assert "," + (before + more + rest) == "," + (before + more) + rest;
    JsonStrings.Regroup(item, "," + (before + more), rest);
  }

  lemma SpacedMembers(space: string, members: seq<Pair>) returns (spaced: seq<Pair>)
    requires Blank(space) && members != [] && WellFormedPairs(members) && members[0].before == ""
    ensures WellFormedPairs(spaced) && |spaced| == |members| && SpellMembers(spaced) == space + SpellMembers(members)
    ensures forall pairs :: MembersMean(spaced, pairs) == MembersMean(members, pairs)
  {
    var first := members[0].(before := space);
    spaced := [first] + members[1..];
    var tail := if |members| == 1 then "}" else "," + SpellMembers(members[1..]);
    assert spaced[1..] == members[1..];
    SpacedPair(space, members[0]);
    JsonStrings.Regroup(space, SpellPair(members[0]), tail);
  }

  lemma SpacedPair(space: string, m: Pair)
    requires Blank(space) && WellFormedPair(m) && m.before == ""
    ensures WellFormedPair(m.(before := space)) && SpellPair(m.(before := space)) == space + SpellPair(m)
  {
    var key, value := SpellString(m.key), SpellItem(m.item);
    PairText(space, key, m.afterKey, value, "");
    PairText("", key, m.afterKey, value, "");
    assert SpellPair(m) + "" == SpellPair(m) && SpellPair(m.(before := space)) + "" == SpellPair(m.(before := space));
  }

  /** A member up to the white space after its value. */
  lemma MemberIsSpelled(s: string) returns (m: Pair, t: string)
    requires s != "" && s[0] == '"' && ParseMember(s[1..]).Some?
    ensures WellFormedPair(m) && m.before == "" && s == SpellPair(m) + t && t == Skip(ParseMember(s[1..]).value.2)
    ensures ParseMember(s[1..]).value.0 == PiecesMean(m.key) && ParseMember(s[1..]).value.1 == ItemMeans(m.item)
    decreases |s|, 0
  {
    var key := StringIsSpelled(s);
    var rest := Scan(s[1..]).value.1;
    var afterKey := SkippedIsBlank(rest);
    var u := Skip(rest);
    var before := SkippedIsBlank(u[1..]);
    var text := Skip(u[1..]);
    var d := ParsedIsSpelled(text);
    var after := SkippedIsBlank(Parse(text).value.1);
    t := Skip(Parse(text).value.1);
    m := Pair("", key, afterKey, Item(before, d, after));
    assert WellFormedItem(m.item);
    ThreeThen(before, Spell(d), after, t);
    PairText("", SpellString(key), afterKey, SpellItem(m.item), t);
    assert u == ":" + u[1..];
  }

  lemma OneMember(m: Pair, pairs: map<Unicode, Data>)
    requires WellFormedPair(m)
    ensures WellFormedPairs([m]) && SpellMembers([m]) == SpellPair(m) + "}"
    ensures MembersMean([m], pairs) == pairs[PiecesMean(m.key) := ItemMeans(m.item)]
  {
    assert [m][1..] == [];
  }

  lemma ConsMember(m: Pair, later: seq<Pair>, pairs: map<Unicode, Data>)
    requires WellFormedPair(m) && later != [] && WellFormedPairs(later)
    ensures WellFormedPairs([m] + later)
    ensures SpellMembers([m] + later) == SpellPair(m) + ("," + SpellMembers(later))
    ensures MembersMean([m] + later, pairs) == MembersMean(later, pairs[PiecesMean(m.key) := ItemMeans(m.item)])
  {
    assert ([m] + later)[1..] == later;
  }

  lemma MemberTurn(s: string, pairs: map<Unicode, Data>, key: Unicode, value: Data, after: string, t: string)
    requires ParseMembers(s, pairs).Some? && ParseMember(s) == Some((key, value, after)) && t == Skip(after)
    ensures t != "" && (t[0] == '}' || (t[0] == ',' && Skip(t[1..]) != "" && Skip(t[1..])[0] == '"'))
    ensures ParseMembers(s, pairs) ==
            if t[0] == '}' then Some((Object(pairs[key := value]), t[1..]))
            else ParseMembers(Skip(t[1..])[1..], pairs[key := value])
  {
  }

  lemma {:induction false} MembersAreSpelled(s: string, pairs: map<Unicode, Data>) returns (members: seq<Pair>)
    requires s != "" && s[0] == '"' && ParseMembers(s[1..], pairs).Some?
    ensures members != [] && WellFormedPairs(members) && members[0].before == ""
    ensures s == SpellMembers(members) + ParseMembers(s[1..], pairs).value.1
    ensures ParseMembers(s[1..], pairs).value.0 == Object(MembersMean(members, pairs))
    decreases |s|, 1
  {
    var (key, value, after) := ParseMember(s[1..]).value;
    var m, t := MemberIsSpelled(s);
    MemberTurn(s[1..], pairs, key, value, after, t);
    if t[0] == '}' {
      members := [m];
      OneMember(m, pairs);
      LastSpelled(s, SpellPair(m), "}", t);
    } else {
      var next, stored := Skip(t[1..]), pairs[key := value];
      members := MemberThenMembers(s, pairs, m, t, next, stored, ParseMembers(next[1..], stored).value);
    }
  }

  lemma MemberThenMembers(s: string, pairs: map<Unicode, Data>, m: Pair, t: string, next: string,
                          stored: map<Unicode, Data>, r: (Data, string))
    returns (members: seq<Pair>)
    requires WellFormedPair(m) && m.before == "" && s == SpellPair(m) + t
    requires t != "" && t[0] == ',' && next == Skip(t[1..]) && next != "" && next[0] == '"'
    requires stored == pairs[PiecesMean(m.key) := ItemMeans(m.item)] && ParseMembers(next[1..], stored) == Some(r)
    ensures members != [] && WellFormedPairs(members) && members[0].before == ""
    ensures s == SpellMembers(members) + r.1 && r.0 == Object(MembersMean(members, pairs))
    decreases |s|, 0
  {
    var before := SkippedIsBlank(t[1..]);
    var more := MembersAreSpelled(next, stored);
    members := JoinedMembers(s, pairs, m, t, before, more, r.1);
  }

  lemma JoinedMembers(s: string, pairs: map<Unicode, Data>, m: Pair, t: string, before: string, more: seq<Pair>,
                      rest: string)
    returns (members: seq<Pair>)
    requires WellFormedPair(m) && m.before == "" && s == SpellPair(m) + t && Blank(before)
    requires more != [] && WellFormedPairs(more) && more[0].before == ""
    requires t != "" && t[0] == ',' && t[1..] == before + (SpellMembers(more) + rest)
    ensures members != [] && WellFormedPairs(members) && members[0].before == "" && s == SpellMembers(members) + rest
    ensures MembersMean(members, pairs) == MembersMean(more, pairs[PiecesMean(m.key) := ItemMeans(m.item)])
  {
    var later := SpacedMembers(before, more);
    members := [m] + later;
    ConsMember(m, later, pairs);
    MoreSpelled(s, SpellPair(m), t, before, SpellMembers(more), rest);
  }

  lemma EmptyDocs(space: string)
    requires Blank(space)
    ensures WellFormed(Bracketed(space, [])) && Spell(Bracketed(space, [])) == "[" + (space + "]")
    ensures Means(Bracketed(space, [])) == Array([])
    ensures WellFormed(Braced(space, [])) && Spell(Braced(space, [])) == "{" + (space + "}")
    ensures Means(Braced(space, [])) == Object(map[])
  {
  }

  lemma ListDoc(items: seq<Item>)
    requires items != [] && WellFormedItems(items)
    ensures WellFormed(Bracketed("", items)) && Spell(Bracketed("", items)) == "[" + SpellItems(items)
    ensures Means(Bracketed("", items)) == Array(ItemsMean(items))
  {
  }

  lemma ObjectDoc(members: seq<Pair>)
    requires members != [] && WellFormedPairs(members)
    ensures WellFormed(Braced("", members)) && Spell(Braced("", members)) == "{" + SpellMembers(members)
    ensures Means(Braced("", members)) == Object(MembersMean(members, map[]))
  {
  }

  lemma ListTurn(s: string, t: string)
    requires s != "" && s[0] == '[' && t == Skip(s[1..])
    ensures Parse(s) == if t != "" && t[0] == ']' then Some((Array([]), t[1..])) else ParseItems(t, [])
  {
  }

  lemma ObjectTurn(s: string, t: string)
    requires s != "" && s[0] == '{' && t == Skip(s[1..]) && Parse(s).Some?
    ensures t != "" && (t[0] == '}' || t[0] == '"')
    ensures Parse(s) == if t[0] == '}' then Some((Object(map[]), t[1..])) else ParseMembers(t[1..], map[])
  {
  }

  lemma BracketsAround(open: string, space: string, body: string, rest: string)
    ensures open + (space + (body + rest)) == open + (space + body) + rest
  {
  }

  lemma EmptyListIsSpelled(s: string, space: string, t: string) returns (d: Doc)
    requires s == "[" + (space + t) && Blank(space) && t != "" && t[0] == ']'
    ensures WellFormed(d) && s == Spell(d) + t[1..] && Means(d) == Array([])
  {
    d := Bracketed(space, []);
    EmptyDocs(space);
    assert t == "]" + t[1..];
    BracketsAround("[", space, "]", t[1..]);
  }

  lemma EmptyObjectIsSpelled(s: string, space: string, t: string) returns (d: Doc)
    requires s == "{" + (space + t) && Blank(space) && t != "" && t[0] == '}'
    ensures WellFormed(d) && s == Spell(d) + t[1..] && Means(d) == Object(map[])
  {
    d := Braced(space, []);
    EmptyDocs(space);
    assert t == "}" + t[1..];
    BracketsAround("{", space, "}", t[1..]);
  }

  lemma ListIsSpelled(s: string, r: (Data, string)) returns (d: Doc)
    requires s != "" && s[0] == '[' && Parse(s) == Some(r)
    ensures WellFormed(d) && s == Spell(d) + r.1 && Means(d) == r.0
    decreases |s|, 1
  {
    var space := SkippedIsBlank(s[1..]);
    var t := Skip(s[1..]);
    assert s == "[" + s[1..];
    ListTurn(s, t);
    if t != "" && t[0] == ']' {
      d := EmptyListIsSpelled(s, space, t);
    } else {
      d := FullListIsSpelled(s, space, t, r);
    }
  }

  lemma FullListIsSpelled(s: string, space: string, t: string, r: (Data, string)) returns (d: Doc)
    requires s == "[" + (space + t) && Blank(space) && ParseItems(t, []) == Some(r)
    ensures WellFormed(d) && s == Spell(d) + r.1 && Means(d) == r.0
    decreases |s|, 0
  {
    var items := ItemsAreSpelled(t, []);
    var spaced := SpacedItems(space, items);
    d := Bracketed("", spaced);
    assert [] + ItemsMean(items) == ItemsMean(items);
    ListDoc(spaced);
    BracketsAround("[", space, SpellItems(items), r.1);
  }

  lemma ObjectIsSpelled(s: string, r: (Data, string)) returns (d: Doc)
    requires s != "" && s[0] == '{' && Parse(s) == Some(r)
    ensures WellFormed(d) && s == Spell(d) + r.1 && Means(d) == r.0
    decreases |s|, 1
  {
    var space := SkippedIsBlank(s[1..]);
    var t := Skip(s[1..]);
    assert s == "{" + s[1..];
    ObjectTurn(s, t);
    if t[0] == '}' {
      d := EmptyObjectIsSpelled(s, space, t);
    } else {
      d := FullObjectIsSpelled(s, space, t, r);
    }
  }

  lemma FullObjectIsSpelled(s: string, space: string, t: string, r: (Data, string)) returns (d: Doc)
    requires s == "{" + (space + t) && Blank(space) && t != "" && t[0] == '"' && ParseMembers(t[1..], map[]) == Some(r)
    ensures WellFormed(d) && s == Spell(d) + r.1 && Means(d) == r.0
    decreases |s|, 0
  {
    var members := MembersAreSpelled(t, map[]);
    var spaced := SpacedMembers(space, members);
    d := Braced("", spaced);
    ObjectDoc(spaced);
    BracketsAround("{", space, SpellMembers(members), r.1);
  }

  /** Whatever is taken for a value is a value as it may be written, and what it means. */
  lemma {:induction false} ParsedIsSpelled(s: string) returns (d: Doc)
    requires Parse(s).Some?
    ensures WellFormed(d) && s == Spell(d) + Parse(s).value.1 && Means(d) == Parse(s).value.0
    decreases |s|, 2
  {
    if s[0] == '{' {
      d := ObjectIsSpelled(s, Parse(s).value);
    } else if s[0] == '[' {
      d := ListIsSpelled(s, Parse(s).value);
    } else if s[0] == '"' {
      var pieces := StringIsSpelled(s);
      d := Quoted(pieces);
    } else {
      d := AtomIsSpelled(s);
    }
  }

  /** A text decodes to a value if and only if it is a document that means it. */
  lemma DecodesExactly(s: string, v: Data)
    ensures Decode(s) == Some(v) <==> exists i :: WellFormedItem(i) && SpellItem(i) == s && ItemMeans(i) == v
  {
    if Decode(s) == Some(v) {
      var before := SkippedIsBlank(s);
      var d := ParsedIsSpelled(Skip(s));
      var after := SkippedIsBlank(Parse(Skip(s)).value.1);
      var i := Item(before, d, after);
      ThreeThen(before, Spell(d), after, "");
      assert after + "" == after && SpellItem(i) + "" == SpellItem(i);
      assert WellFormedItem(i) && SpellItem(i) == s && ItemMeans(i) == v;
    }
    if i :| WellFormedItem(i) && SpellItem(i) == s && ItemMeans(i) == v {
      EveryDocumentDecodes(i);
    }
  }
}
