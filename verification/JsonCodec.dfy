/**
 JSON values: the encoder with its default settings, the decoder, and the round trip
 between them (sections 4, 5 and 7 of RFC 8259).
 */
module JsonCodec {
  import opened Decimal
  import opened JsonStrings

  /** A value to encode; a dictionary's members come in its iteration order. */
  datatype Value =
    | Null
    | Bool(b: bool)
    | Int(i: int)
    | Str(s: Unicode)
    | List(items: seq<Value>)
    | Dict(members: seq<Member>)

  datatype Member = Member(key: Unicode, value: Value)

  /** A decoded value; a number with a fraction or an exponent keeps its literal. */
  datatype Data =
    | Nothing
    | Truth(b: bool)
    | Number(i: int)
    | Float(literal: string)
    | Text(units: Unicode)
    | Array(values: seq<Data>)
    | Object(pairs: map<Unicode, Data>)

  // ----- the encoder -----

  function Encode(v: Value): string {
    match v
    case Null => "null"
    case Bool(b) => if b then "true" else "false"
    case Int(i) => FormatInt(i)
    case Str(s) => Quote(s)
    case List(items) => if items == [] then "[]" else "[" + EncodeItems(items)
    case Dict(members) => if members == [] then "{}" else "{" + EncodeMembers(members)
  }

  /** The items of a list and its closing bracket. */
  function EncodeItems(items: seq<Value>): string
    requires items != []
  {
    Encode(items[0]) + if |items| == 1 then "]" else ", " + EncodeItems(items[1..])
  }

  /** The members of a dictionary and its closing brace. */
  function EncodeMembers(members: seq<Member>): string
    requires members != []
  {
    Quote(members[0].key) + ": " + Encode(members[0].value) +
    if |members| == 1 then "}" else ", " + EncodeMembers(members[1..])
  }

  // ----- the decoder -----

  predicate IsSpace(c: char) {
    c == ' ' || 9 <= c as int <= 13
  }

  function Skip(s: string): (r: string)
    ensures |r| <= |s|
  {
    if s != [] && IsSpace(s[0]) then Skip(s[1..]) else s
  }

  /** Constants differ in their first letter. */
  function Word(c: char): string {
    match c
    case 'n' => "null"
    case 't' => "true"
    case 'f' => "false"
    case 'N' => "NaN"
    case 'I' => "Infinity"
    case '-' => "-Infinity"
    case _ => ""
  }

  function WordValue(c: char): Data {
    match c
    case 'n' => Nothing
    case 't' => Truth(true)
    case 'f' => Truth(false)
    case _ => Float(Word(c))
  }

  function ScanConstant(s: string): (r: Option<(Data, string)>)
    ensures r.Some? ==> |r.value.1| < |s|
  {
    if s == [] then None
    else
      var word := Word(s[0]);
      if word != "" && word <= s then Some((WordValue(s[0]), s[|word|..])) else None
  }

  function DropDigits(s: string): (r: string)
    ensures |r| <= |s|
  {
    if s != [] && IsDigit(s[0]) then DropDigits(s[1..]) else s
  }

  /** Skips an optional fraction: a point and at least one digit. */
  function DropFraction(s: string): (r: string)
    ensures |r| <= |s|
  {
    if |s| >= 2 && s[0] == '.' && IsDigit(s[1]) then DropDigits(s[1..]) else s
  }

  /** Skips an optional exponent: a letter e, an optional sign and at least one digit. */
  function DropExponent(s: string): (r: string)
    ensures |r| <= |s|
  {
    if s == [] || (s[0] != 'e' && s[0] != 'E') then s
    else
      var t := if |s| >= 2 && (s[1] == '-' || s[1] == '+') then s[2..] else s[1..];
      if t != [] && IsDigit(t[0]) then DropDigits(t) else s
  }

  /** An unsigned integer literal: a single zero, or digits that do not start with one. */
  function ScanNatural(s: string): (r: Option<(nat, string)>)
    ensures r.Some? ==> |r.value.1| < |s|
  {
    if s == [] || !IsDigit(s[0]) then None
    else if s[0] == '0' then Some((0, s[1..]))
    else ReadDigitsShortens(s[1..], DigitValue(s[0])); Some(ReadDigits(s, 0))
  }

  lemma ReadDigitsShortens(s: string, acc: nat)
    ensures |ReadDigits(s, acc).1| <= |s|
  {
  }

  function ScanNumber(s: string): (r: Option<(Data, string)>)
    ensures r.Some? ==> |r.value.1| < |s|
  {
    var negative := s != [] && s[0] == '-';
    match ScanNatural(if negative then s[1..] else s)
    case None => None
    case Some((n, rest)) =>
      var end := DropExponent(DropFraction(rest));
      if |end| == |rest| then Some((Number(if negative then -(n as int) else n as int), rest))
      else Some((Float(s[..|s| - |end|]), end))
  }

  /** A constant or a number, whichever matches. */
  function ScanAtom(s: string): (r: Option<(Data, string)>)
    ensures r.Some? ==> |r.value.1| < |s|
  {
    var constant := ScanConstant(s);
    if constant.Some? then constant else ScanNumber(s)
  }

  /** One value at the start of the text, and the text after it. */
  function Parse(s: string): (r: Option<(Data, string)>)
    ensures r.Some? ==> |r.value.1| < |s|
    decreases |s|, 0
  {
    if s == [] then None
    else if s[0] == '{' then ParseObject(s[1..])
    else if s[0] == '[' then ParseArray(s[1..])
    else if s[0] == '"' then
      match Scan(s[1..])
      case Some((text, rest)) => Some((Text(text), rest))
      case None => None
    else ScanAtom(s)
  }

  function ParseArray(s: string): (r: Option<(Data, string)>)
    ensures r.Some? ==> |r.value.1| < |s|
    decreases |s|, 2
  {
    var t := Skip(s);
    if t != [] && t[0] == ']' then Some((Array([]), t[1..])) else ParseItems(t, [])
  }

  /** The remaining items, after the values read so far. */
  function ParseItems(s: string, values: seq<Data>): (r: Option<(Data, string)>)
    ensures r.Some? ==> |r.value.1| < |s|
    decreases |s|, 1
  {
    match Parse(s)
    case None => None
    case Some((value, rest)) => AfterItem(rest, values + [value])
  }

  /** After a value: the closing bracket, or a comma and more items. */
  function AfterItem(s: string, values: seq<Data>): (r: Option<(Data, string)>)
    ensures r.Some? ==> |r.value.1| < |s|
    decreases |s|, 2
  {
    var t := Skip(s);
    if t == [] then None
    else if t[0] == ']' then Some((Array(values), t[1..]))
    else if t[0] == ',' then ParseItems(Skip(t[1..]), values)
    else None
  }

  function ParseObject(s: string): (r: Option<(Data, string)>)
    ensures r.Some? ==> |r.value.1| < |s|
    decreases |s|, 2
  {
    var t := Skip(s);
    if t == [] then None
    else if t[0] == '}' then Some((Object(map[]), t[1..]))
    else if t[0] == '"' then ParseMembers(t[1..], map[])
    else None
  }

  /** The remaining members, after a key's opening quote. */
  function ParseMembers(s: string, pairs: map<Unicode, Data>): (r: Option<(Data, string)>)
    ensures r.Some? ==> |r.value.1| < |s|
    decreases |s|, 1
  {
    match ParseMember(s)
    case None => None
    case Some((key, value, rest)) => AfterMember(rest, pairs[key := value])
  }

  /** After a member: the closing brace, or a comma and the opening quote of the next key. */
  function AfterMember(s: string, pairs: map<Unicode, Data>): (r: Option<(Data, string)>)
    ensures r.Some? ==> |r.value.1| < |s|
    decreases |s|, 2
  {
    var t := Skip(s);
    if t == [] then None
    else if t[0] == '}' then Some((Object(pairs), t[1..]))
    else if t[0] != ',' then None
    else
      var u := Skip(t[1..]);
      if u != [] && u[0] == '"' then ParseMembers(u[1..], pairs) else None
  }

  /** One member, after its key's opening quote. */
  function ParseMember(s: string): (r: Option<(Unicode, Data, string)>)
    ensures r.Some? ==> |r.value.2| < |s|
    decreases |s|, 0
  {
    match Scan(s)
    case None => None
    case Some((key, rest)) =>
      var t := Skip(rest);
      if t == [] || t[0] != ':' then None
      else
        match Parse(Skip(t[1..]))
        case None => None
        case Some((value, end)) => Some((key, value, end))
  }

  /** A document: one value between white space, and nothing else. */
  function Decode(s: string): Option<Data> {
    match Parse(Skip(s))
    case None => None
    case Some((value, rest)) => if Skip(rest) == [] then Some(value) else None
  }

  // ----- the round trip -----

  /** What decoding makes of a value. */
  function Image(v: Value): Data {
    match v
    case Null => Nothing
    case Bool(b) => Truth(b)
    case Int(i) => Number(i)
    case Str(s) => Text(Utf16(s))
    case List(items) => Array(ImageItems(items))
    case Dict(members) => Object(ImageMembers(members, map[]))
  }

  function ImageItems(items: seq<Value>): seq<Data> {
    if items == [] then [] else [Image(items[0])] + ImageItems(items[1..])
  }

  /** Members are stored in turn, so that a later one with the same key replaces an earlier one. */
  function ImageMembers(members: seq<Member>, pairs: map<Unicode, Data>): map<Unicode, Data> {
    if members == [] then pairs
    else ImageMembers(members[1..], pairs[Utf16(members[0].key) := Image(members[0].value)])
  }

  /** What follows a value inside a document. */
  predicate Delimited(s: string) {
    s == [] || s[0] == ',' || s[0] == ']' || s[0] == '}'
  }

  /** What a value's text starts with. */
  predicate Starts(s: string) {
    s != [] && !IsSpace(s[0]) && s[0] != ']' && s[0] != '}'
  }

  lemma EncodeStarts(v: Value, rest: string)
    ensures Starts(Encode(v) + rest)
  {
    match v
    case Int(i) =>
      DigitsAreDigits(if i < 0 then -i else i);
      var n := Digits(if i < 0 then -i else i);
      assert n[0] in n;
      assert (Encode(v) + rest)[0] == FormatInt(i)[0];
    case _ =>
      assert Encode(v) != [] && (Encode(v) + rest)[0] == Encode(v)[0];
  }

  lemma ConstantRoundTrip(c: char, rest: string)
    requires c == 'n' || c == 't' || c == 'f'
    ensures Parse(Word(c) + rest) == Some((WordValue(c), rest))
  {
    var s := Word(c) + rest;
    assert s[0] == Word(c)[0] == c;
    assert s[|Word(c)|..] == rest;
    AtomStep(s);
  }

  lemma NumberRoundTrip(i: int, rest: string)
    requires Delimited(rest)
    ensures Parse(FormatInt(i) + rest) == Some((Number(i), rest))
  {
    var n: nat := if i < 0 then -i else i;
    var s, t := FormatInt(i) + rest, Digits(n) + rest;
    NaturalRoundTrip(n, rest);
    if i < 0 {
      assert s == "-" + t && s[1..] == t;
      NegativeStep(s, t);
    } else {
      PositiveStep(s);
    }
    AtomStep(s);
    PlainNumber(s, t, n, rest);
  }

  lemma PlainNumber(s: string, t: string, n: nat, rest: string)
    requires s != [] && t == (if s[0] == '-' then s[1..] else s)
    requires ScanNatural(t) == Some((n, rest)) && Delimited(rest)
    ensures ScanNumber(s) == Some((Number(if s[0] == '-' then -(n as int) else n as int), rest))
  {
    assert DropExponent(DropFraction(rest)) == rest;
  }

  lemma AtomStep(s: string)
    requires s != [] && s[0] != '{' && s[0] != '[' && s[0] != '"'
    ensures Parse(s) == ScanAtom(s)
  {
  }

  lemma PositiveStep(s: string)
    requires s != [] && IsDigit(s[0])
    ensures ScanAtom(s) == ScanNumber(s)
  {
    assert Word(s[0]) == "";
  }

  lemma NegativeStep(s: string, t: string)
    requires s == "-" + t && t != [] && IsDigit(t[0])
    ensures ScanAtom(s) == ScanNumber(s)
  {
    var word := "-Infinity";
    assert Word(s[0]) == word && word[1] == 'I' && s[1] == t[0];
    assert ScanConstant(s) == None;
  }

  lemma NaturalRoundTrip(n: nat, rest: string)
    requires Delimited(rest)
    ensures ScanNatural(Digits(n) + rest) == Some((n, rest))
    ensures Digits(n) != [] && IsDigit((Digits(n) + rest)[0])
  {
    ReadNatOfDigits(n, rest);
    DigitsAreDigits(n);
    assert (Digits(n) + rest)[0] == Digits(n)[0];
    if n == 0 {
      assert (Digits(n) + rest)[1..] == rest;
    }
  }

  lemma StringRoundTrip(s: Unicode, rest: string)
    ensures Parse(Quote(s) + rest) == Some((Text(Utf16(s)), rest))
    ensures (Quote(s) + rest)[0] == '"' && Scan((Quote(s) + rest)[1..]) == Some((Utf16(s), rest))
  {
    var t := Quote(s) + rest;
    Unquoted(EscapeAll(s), rest);
    ScanOfQuoted(s, rest);
    StringStep(t, Utf16(s), rest);
  }

  lemma Unquoted(body: string, rest: string)
    ensures var t := "\"" + body + "\"" + rest; t[0] == '"' && t[1..] == body + ("\"" + rest)
  {
  }

  lemma StringStep(t: string, units: Unicode, rest: string)
    requires t != [] && t[0] == '"' && Scan(t[1..]) == Some((units, rest))
    ensures Parse(t) == Some((Text(units), rest))
  {
  }

  lemma SkipOne(next: string)
    requires Starts(next)
    ensures Skip(" " + next) == next && Skip(next) == next
  {
    assert (" " + next)[1..] == next;
  }

  lemma ArrayStep(s: string, t: string)
    requires s == "[" + t && Starts(t)
    ensures Parse(s) == ParseItems(t, [])
  {
    assert s[0] == '[' && s[1..] == t;
  }

  lemma ItemsEnd(s: string, value: Data, rest: string, values: seq<Data>)
    requires Parse(s) == Some((value, "]" + rest))
    ensures ParseItems(s, values) == Some((Array(values + [value]), rest))
  {
    assert ("]" + rest)[1..] == rest;
  }

  lemma ItemsNext(s: string, value: Data, next: string, values: seq<Data>)
    requires Parse(s) == Some((value, ", " + next)) && Starts(next)
    ensures ParseItems(s, values) == ParseItems(next, values + [value])
  {
    assert (", " + next)[1..] == " " + next;
    SkipOne(next);
  }

  lemma ObjectStep(s: string, t: string)
    requires s == "{" + ("\"" + t)
    ensures Parse(s) == ParseMembers(t, map[])
  {
    assert s[0] == '{' && s[1..] == "\"" + t && ("\"" + t)[1..] == t;
  }

  lemma MembersEnd(s: string, key: Unicode, value: Data, rest: string, pairs: map<Unicode, Data>)
    requires ParseMember(s) == Some((key, value, "}" + rest))
    ensures ParseMembers(s, pairs) == Some((Object(pairs[key := value]), rest))
  {
    assert ("}" + rest)[1..] == rest;
  }

  lemma MembersNext(s: string, key: Unicode, value: Data, next: string, pairs: map<Unicode, Data>)
    requires ParseMember(s) == Some((key, value, ", " + ("\"" + next)))
    ensures ParseMembers(s, pairs) == ParseMembers(next, pairs[key := value])
  {
    var quoted := "\"" + next;
    assert (", " + quoted)[1..] == " " + quoted && quoted[1..] == next;
    SkipOne(quoted);
  }

  lemma MemberStep(s: string, key: Unicode, text: string, value: Data, after: string)
    requires Scan(s) == Some((key, ": " + text)) && Starts(text) && Parse(text) == Some((value, after))
    ensures ParseMember(s) == Some((key, value, after))
  {
    assert (": " + text)[1..] == " " + text;
    SkipOne(text);
  }

  /** Parsing an encoded value gives its image, and exactly the text after it. */
  lemma {:induction false} ParseOfEncode(v: Value, rest: string)
    requires Delimited(rest)
    ensures Parse(Encode(v) + rest) == Some((Image(v), rest))
    decreases v, 0
  {
    match v
    case Null => ConstantRoundTrip('n', rest);
    case Bool(b) => ConstantRoundTrip(if b then 't' else 'f', rest);
    case Int(i) => NumberRoundTrip(i, rest);
    case Str(s) => StringRoundTrip(s, rest);
    case List(items) =>
      if items == [] {
        EmptyRoundTrip(rest);
      } else {
        var t := EncodeItems(items) + rest;
        Regroup("[", EncodeItems(items), rest);
        ItemsStart(items, rest);
        ArrayStep(Encode(v) + rest, t);
        ItemsOfEncode(items, rest, []);
        assert [] + ImageItems(items) == ImageItems(items);
      }
    case Dict(members) =>
      if members == [] {
        EmptyRoundTrip(rest);
      } else {
        Regroup("{", EncodeMembers(members), rest);
        MembersQuote(members, rest);
        ObjectStep(Encode(v) + rest, (EncodeMembers(members) + rest)[1..]);
        MembersOfEncode(members, rest, map[]);
      }
  }

  lemma EmptyRoundTrip(rest: string)
    ensures Parse("[]" + rest) == Some((Array([]), rest))
    ensures Parse("{}" + rest) == Some((Object(map[]), rest))
  {
    assert ("[]" + rest)[1..] == "]" + rest && ("]" + rest)[1..] == rest;
    assert ("{}" + rest)[1..] == "}" + rest && ("}" + rest)[1..] == rest;
  }

  lemma ItemsStart(items: seq<Value>, rest: string)
    requires items != []
    ensures Starts(EncodeItems(items) + rest)
  {
    var tail := if |items| == 1 then "]" else ", " + EncodeItems(items[1..]);
    EncodeStarts(items[0], tail + rest);
    Regroup(Encode(items[0]), tail, rest);
  }

  lemma {:induction false} ItemsOfEncode(items: seq<Value>, rest: string, values: seq<Data>)
    requires items != []
    ensures ParseItems(EncodeItems(items) + rest, values) == Some((Array(values + ImageItems(items)), rest))
    decreases items, 1
  {
    var tail := if |items| == 1 then "]" else ", " + EncodeItems(items[1..]);
    var s, value := EncodeItems(items) + rest, Image(items[0]);
    Regroup(Encode(items[0]), tail, rest);
    ParseOfEncode(items[0], tail + rest);
    if |items| == 1 {
      ItemsEnd(s, value, rest, values);
      assert ImageItems(items) == [value];
    } else {
      Regroup(", ", EncodeItems(items[1..]), rest);
      ItemsStart(items[1..], rest);
      ItemsNext(s, value, EncodeItems(items[1..]) + rest, values);
      ItemsOfEncode(items[1..], rest, values + [value]);
      assert values + [value] + ImageItems(items[1..]) == values + ImageItems(items);
    }
  }

  lemma MembersQuote(members: seq<Member>, rest: string)
    requires members != []
    ensures var t := EncodeMembers(members) + rest; t != [] && t == "\"" + t[1..]
  {
  }

  lemma {:induction false} MembersOfEncode(members: seq<Member>, rest: string, pairs: map<Unicode, Data>)
    requires members != [] && |EncodeMembers(members) + rest| > 0
    ensures ParseMembers((EncodeMembers(members) + rest)[1..], pairs) ==
            Some((Object(ImageMembers(members, pairs)), rest))
    decreases members, 1
  {
    var m := members[0];
    var tail := if |members| == 1 then "}" else ", " + EncodeMembers(members[1..]);
    var s := (EncodeMembers(members) + rest)[1..];
    MemberText(Quote(m.key), Encode(m.value), tail, rest);
    MemberOfEncode(m, tail + rest, s);
    if |members| == 1 {
      MembersEnd(s, Utf16(m.key), Image(m.value), rest, pairs);
    } else {
      var next := EncodeMembers(members[1..]) + rest;
      Regroup(", ", EncodeMembers(members[1..]), rest);
      MembersQuote(members[1..], rest);
      MembersNext(s, Utf16(m.key), Image(m.value), next[1..], pairs);
      MembersOfEncode(members[1..], rest, pairs[Utf16(m.key) := Image(m.value)]);
    }
  }

  lemma MemberText(key: string, value: string, tail: string, rest: string)
    ensures key + ": " + value + tail + rest == key + (": " + (value + (tail + rest)))
  {
  }

  lemma MemberOfEncode(m: Member, after: string, s: string)
    requires Delimited(after)
    requires s == (Quote(m.key) + (": " + (Encode(m.value) + after)))[1..]
    ensures ParseMember(s) == Some((Utf16(m.key), Image(m.value), after))
    decreases m.value, 1
  {
    var text := Encode(m.value) + after;
    StringRoundTrip(m.key, ": " + text);
    EncodeStarts(m.value, after);
    ParseOfEncode(m.value, after);
    MemberStep(s, Utf16(m.key), text, Image(m.value), after);
  }

  /** Decoding what was encoded gives the image of the value, for every value. */
  lemma DecodeOfEncode(v: Value)
    ensures Decode(Encode(v)) == Some(Image(v))
  {
    EncodeStarts(v, "");
    ParseOfEncode(v, "");
    assert Encode(v) + "" == Encode(v);
  }

  // ----- when nothing is lost -----

  /** d holds v: the same tree with strings as UTF-16 units, and an entry for each member. */
  predicate Holds(v: Value, d: Data)
    decreases v
  {
    match v
    case Null => d == Nothing
    case Bool(b) => d == Truth(b)
    case Int(i) => d == Number(i)
    case Str(s) => d == Text(Utf16(s))
    case List(items) =>
      d.Array? && |d.values| == |items| && forall i :: 0 <= i < |items| ==> Holds(items[i], d.values[i])
    case Dict(members) =>
      && d.Object? && |d.pairs| == |members|
      && (forall i :: 0 <= i < |members| ==>
            Utf16(members[i].key) in d.pairs && Holds(members[i].value, d.pairs[Utf16(members[i].key)]))
  }

  /** No two keys of a dictionary become the same units. */
  predicate KeysApart(members: seq<Member>) {
    forall i, j :: 0 <= i < j < |members| ==> Utf16(members[i].key) != Utf16(members[j].key)
  }

  predicate KeysApartThroughout(v: Value) {
    match v
    case List(items) => forall i :: 0 <= i < |items| ==> KeysApartThroughout(items[i])
    case Dict(members) =>
      KeysApart(members) && forall i :: 0 <= i < |members| ==> KeysApartThroughout(members[i].value)
    case _ => true
  }

  lemma {:induction false} ImageItemsAt(items: seq<Value>)
    ensures |ImageItems(items)| == |items|
    ensures forall i :: 0 <= i < |items| ==> ImageItems(items)[i] == Image(items[i])
  {
    if items != [] {
      ImageItemsAt(items[1..]);
      forall i | 0 <= i < |items|
        ensures ImageItems(items)[i] == Image(items[i])
      {
        if i > 0 {
          assert items[i] == items[1..][i - 1];
        }
      }
    }
  }

  /** Keys not among the members keep their entry; at most one entry is added for each member. */
  lemma {:induction false} ImageMembersKeeps(members: seq<Member>, pairs: map<Unicode, Data>, key: Unicode)
    ensures |ImageMembers(members, pairs)| <= |pairs| + |members|
    ensures key in pairs ==> key in ImageMembers(members, pairs)
    ensures (forall i :: 0 <= i < |members| ==> Utf16(members[i].key) != key) && key in pairs ==>
              key in ImageMembers(members, pairs) && ImageMembers(members, pairs)[key] == pairs[key]
  {
    if members != [] {
      var first := Utf16(members[0].key);
      var pairs' := pairs[first := Image(members[0].value)];
      StoredCount(pairs, first, Image(members[0].value));
      ImageMembersKeeps(members[1..], pairs', key);
      assert forall i :: 0 <= i < |members[1..]| ==> members[1..][i] == members[i + 1];
    }
  }

  lemma StoredCount(pairs: map<Unicode, Data>, key: Unicode, value: Data)
    ensures |pairs[key := value]| == |pairs| + if key in pairs then 0 else 1
  {
    var stored := pairs[key := value];
    assert stored.Keys == pairs.Keys + {key};
    assert |stored| == |stored.Keys| && |pairs| == |pairs.Keys|;
    if key in pairs {
      assert stored.Keys == pairs.Keys;
    }
  }

  /** With keys apart, each member has its entry. */
  lemma {:induction false} ImageMembersAt(members: seq<Member>, pairs: map<Unicode, Data>, i: nat)
    requires KeysApart(members) && i < |members|
    ensures var m := ImageMembers(members, pairs);
            Utf16(members[i].key) in m && m[Utf16(members[i].key)] == Image(members[i].value)
  {
    var first := Utf16(members[0].key);
    var pairs' := pairs[first := Image(members[0].value)];
    assert forall k :: 0 <= k < |members[1..]| ==> members[1..][k] == members[k + 1];
    if i == 0 {
      ImageMembersKeeps(members[1..], pairs', first);
    } else {
      ImageMembersAt(members[1..], pairs', i - 1);
    }
  }

  predicate Fresh(members: seq<Member>, pairs: map<Unicode, Data>) {
    forall i :: 0 <= i < |members| ==> Utf16(members[i].key) !in pairs
  }

  /** The number of entries grows by the number of members exactly when no key is met twice. */
  lemma {:induction false} ImageMembersCount(members: seq<Member>, pairs: map<Unicode, Data>)
    ensures |ImageMembers(members, pairs)| == |pairs| + |members| <==> KeysApart(members) && Fresh(members, pairs)
  {
    if members != [] {
      var first := Utf16(members[0].key);
      var pairs' := pairs[first := Image(members[0].value)];
      StoredCount(pairs, first, Image(members[0].value));
      ImageMembersKeeps(members[1..], pairs', first);
      ImageMembersCount(members[1..], pairs');
      ApartSplits(members, pairs, pairs');
    }
  }

  lemma ApartSplits(members: seq<Member>, pairs: map<Unicode, Data>, pairs': map<Unicode, Data>)
    requires members != [] && pairs'.Keys == pairs.Keys + {Utf16(members[0].key)}
    ensures KeysApart(members) && Fresh(members, pairs) <==>
            Utf16(members[0].key) !in pairs && KeysApart(members[1..]) && Fresh(members[1..], pairs')
  {
    var rest := members[1..];
    assert forall k :: 0 <= k < |rest| ==> rest[k] == members[k + 1];
    assert forall k :: 1 <= k < |members| ==> members[k] == rest[k - 1];
  }

  /** Decoding returns the encoded value, member for member, exactly when no two keys coincide. */
  lemma {:induction false} ImageHoldsIffKeysApart(v: Value)
    ensures Holds(v, Image(v)) <==> KeysApartThroughout(v)
  {
    match v
    case List(items) =>
      ImageItemsAt(items);
      forall i | 0 <= i < |items|
        ensures Holds(items[i], Image(items[i])) <==> KeysApartThroughout(items[i])
      {
        ImageHoldsIffKeysApart(items[i]);
      }
    case Dict(members) =>
      ImageMembersCount(members, map[]);
      forall i | 0 <= i < |members|
        ensures Holds(members[i].value, Image(members[i].value)) <==> KeysApartThroughout(members[i].value)
        ensures KeysApart(members) ==>
                  && Utf16(members[i].key) in ImageMembers(members, map[])
                  && ImageMembers(members, map[])[Utf16(members[i].key)] == Image(members[i].value)
      {
        ImageHoldsIffKeysApart(members[i].value);
        if KeysApart(members) {
          ImageMembersAt(members, map[], i);
        }
      }
    case _ =>
  }

  /** The round trip as a caller sees it. */
  lemma RoundTrip(v: Value)
    ensures Decode(Encode(v)).Some?
    ensures Holds(v, Decode(Encode(v)).value) <==> KeysApartThroughout(v)
  {
    DecodeOfEncode(v);
    ImageHoldsIffKeysApart(v);
  }

  /** Two different keys, a wide character and its two surrogates, leave one entry. */
  lemma SurrogateKeysCollide()
    ensures var v := Dict([Member([0x10000], Int(1)), Member([0xd800, 0xdc00], Int(2))]);
            Decode(Encode(v)) == Some(Object(map[[0xd800, 0xdc00] := Number(2)]))
  {
    var pair: Unicode := [0xd800, 0xdc00];
    var a, b := Member([0x10000], Int(1)), Member(pair, Int(2));
    DecodeOfEncode(Dict([a, b]));
    PairUnits();
    SameKeyTwice(a, b, pair);
  }

  lemma PairUnits()
    ensures Utf16([0x10000]) == [0xd800, 0xdc00] && Utf16([0xd800, 0xdc00]) == [0xd800, 0xdc00]
  {
    var pair: Unicode := [0xd800, 0xdc00];
    assert [0x10000][1..] == [] && pair[1..] == [0xdc00] && [0xdc00][1..] == [];
    assert Utf16([0xdc00]) == [0xdc00] + [];
  }

  lemma SameKeyTwice(a: Member, b: Member, key: Unicode)
    requires Utf16(a.key) == key && Utf16(b.key) == key
    ensures ImageMembers([a, b], map[]) == map[key := Image(b.value)]
  {
    assert [a, b][1..] == [b] && [b][1..] == [];
    assert ImageMembers([a, b], map[]) == ImageMembers([b], map[key := Image(a.value)]);
    assert ImageMembers([b], map[key := Image(a.value)]) ==
        ImageMembers([], map[key := Image(a.value)][key := Image(b.value)]);
  }

  /** Keys that spell no surrogate pair stay apart when they differ. */
  lemma UnpairedKeysStayApart(members: seq<Member>)
    requires forall i :: 0 <= i < |members| ==> Unpaired(members[i].key)
    requires forall i, j :: 0 <= i < j < |members| ==> members[i].key != members[j].key
    ensures KeysApart(members)
  {
    forall i, j | 0 <= i < j < |members|
      ensures Utf16(members[i].key) != Utf16(members[j].key)
    {
      JoinUndoesUtf16(members[i].key);
      JoinUndoesUtf16(members[j].key);
    }
  }
}
