/** The encoder's and the decoder's loops, proved against the functions of JsonCodec. */
module JsonRoutines {
  import opened Decimal
  import opened JsonStrings
  import opened JsonCodec

  // ----- the encoder -----

  /** The text so far is followed by the items from i on, or by the bracket. */
  ghost predicate ItemsWritten(text: string, items: seq<Value>, i: nat)
    requires items != [] && i <= |items|
  {
    text + (if i == |items| then "]" else Separator(i) + EncodeItems(items[i..])) == "[" + EncodeItems(items)
  }

  /** The text so far is followed by the members from i on, or by the brace. */
  ghost predicate MembersWritten(text: string, members: seq<Member>, i: nat)
    requires members != [] && i <= |members|
  {
    text + (if i == |members| then "}" else Separator(i) + EncodeMembers(members[i..])) == "{" + EncodeMembers(members)
  }

  function Separator(i: nat): string {
    if i == 0 then "" else ", "
  }

  lemma ItemPut(text: string, items: seq<Value>, i: nat)
    requires i < |items| && ItemsWritten(text, items, i)
    ensures ItemsWritten(text + Separator(i) + Encode(items[i]), items, i + 1)
  {
    assert items[i..][0] == items[i] && items[i..][1..] == items[i + 1..];
    var pending := if i + 1 == |items| then "]" else ", " + EncodeItems(items[i + 1..]);
    assert EncodeItems(items[i..]) == Encode(items[i]) + pending;
    RegroupFour(text, Separator(i), Encode(items[i]), pending);
  }

  lemma MemberPut(text: string, members: seq<Member>, i: nat)
    requires i < |members| && MembersWritten(text, members, i)
    ensures MembersWritten(text + Separator(i) + (Quote(members[i].key) + ": " + Encode(members[i].value)), members,
            i + 1)
  {
    assert members[i..][0] == members[i] && members[i..][1..] == members[i + 1..];
    var pending := if i + 1 == |members| then "}" else ", " + EncodeMembers(members[i + 1..]);
    var member := Quote(members[i].key) + ": " + Encode(members[i].value);
    assert EncodeMembers(members[i..]) == member + pending;
    RegroupFour(text, Separator(i), member, pending);
  }

  lemma RegroupFour(a: string, b: string, c: string, d: string)
    ensures a + (b + (c + d)) == a + b + c + d
  {
  }

  /** _iterencode, with the chunks it yields joined. */
  method IterEncode(v: Value) returns (text: string)
    ensures text == Encode(v)
    decreases v, 0
  {
    match v
    case Null => text := "null";
    case Bool(b) => text := if b then "true" else "false";
    case Int(i) => text := FormatInt(i);
    case Str(s) => text := AsciiEscapeUnicode(s, true);
    case List(items) => text := IterEncodeList(items);
    case Dict(members) => text := IterEncodeDict(members);
  }

  method IterEncodeList(items: seq<Value>) returns (text: string)
    ensures text == Encode(List(items))
    decreases items, 1
  {
    if items == [] {
      return "[]";
    }
    text := "[";
    var first := true;
    assert items[0..] == items;
    for i := 0 to |items|
      invariant first == (i == 0)
      invariant ItemsWritten(text, items, i)
    {
      ItemPut(text, items, i);
      var separator := if first then "" else ", ";
      first := false;
      var value := IterEncode(items[i]);
      text := text + separator + value;
    }
    text := text + "]";
  }

  method IterEncodeDict(members: seq<Member>) returns (text: string)
    ensures text == Encode(Dict(members))
    decreases members, 1
  {
    if members == [] {
      return "{}";
    }
    text := "{";
    var first := true;
    assert members[0..] == members;
    for i := 0 to |members|
      invariant first == (i == 0)
      invariant MembersWritten(text, members, i)
    {
      MemberPut(text, members, i);
      var separator := if first then "" else ", ";
      first := false;
      var key := AsciiEscapeUnicode(members[i].key, true);
      var value := IterEncode(members[i].value);
      text := text + separator + (key + ": " + value);
    }
    text := text + "}";
  }

  // ----- the decoder -----

  /** What a scanner leaves is an end of its text. */
  predicate Suffix(r: string, s: string) {
    |r| <= |s| && r == s[|s| - |r|..]
  }

  lemma SuffixOfTail(r: string, s: string)
    requires s != [] && Suffix(r, s[1..])
    ensures Suffix(r, s)
  {
  }

  lemma SuffixTwice(a: string, b: string, c: string)
    requires Suffix(a, b) && Suffix(b, c)
    ensures Suffix(a, c)
  {
  }

  lemma {:induction false} DigitsLeaveSuffix(s: string, acc: nat)
    ensures Suffix(DropDigits(s), s) && Suffix(ReadDigits(s, acc).1, s)
  {
    if s != [] && IsDigit(s[0]) {
      DigitsLeaveSuffix(s[1..], 10 * acc + DigitValue(s[0]));
      SuffixOfTail(DropDigits(s), s);
      SuffixOfTail(ReadDigits(s, acc).1, s);
    }
  }

  lemma FractionLeavesSuffix(s: string)
    ensures Suffix(DropFraction(s), s)
  {
    if s != [] {
      DigitsLeaveSuffix(s[1..], 0);
    }
  }

  lemma ExponentLeavesSuffix(s: string)
    ensures Suffix(DropExponent(s), s)
  {
    if s != [] {
      var t := if |s| >= 2 && (s[1] == '-' || s[1] == '+') then s[2..] else s[1..];
      DigitsLeaveSuffix(t, 0);
      SuffixTwice(DropDigits(t), t, s);
    }
  }

  lemma NaturalLeavesSuffix(s: string)
    ensures ScanNatural(s).Some? ==> Suffix(ScanNatural(s).value.1, s)
  {
    DigitsLeaveSuffix(s, 0);
  }

  lemma NumberLeavesSuffix(s: string)
    ensures ScanNumber(s).Some? ==> Suffix(ScanNumber(s).value.1, s)
  {
    var t := if s != [] && s[0] == '-' then s[1..] else s;
    NaturalLeavesSuffix(t);
    if ScanNatural(t).Some? {
      var rest := ScanNatural(t).value.1;
      FractionLeavesSuffix(rest);
      ExponentLeavesSuffix(DropFraction(rest));
      SuffixTwice(DropExponent(DropFraction(rest)), DropFraction(rest), rest);
      assert Suffix(rest, s);
      SuffixTwice(DropExponent(DropFraction(rest)), rest, s);
    }
  }

  method SkipSpace(s: string, begin: nat) returns (end: nat)
    requires begin <= |s|
    ensures begin <= end <= |s| && s[end..] == Skip(s[begin..])
    ensures end < |s| ==> !IsSpace(s[end])
  {
    end := begin;
    while end < |s| && IsSpace(s[end])
      invariant begin <= end <= |s|
      invariant Skip(s[end..]) == Skip(s[begin..])
    {
      assert s[end..][1..] == s[end + 1..];
      end := end + 1;
    }
  }

  /** JSONConstant and JSONNumber: the pattern that matches at a position. */
  method ScanLexeme(s: string, begin: nat) returns (r: Option<(Data, nat)>)
    requires begin < |s| && s[begin] != '{' && s[begin] != '[' && s[begin] != '"'
    ensures ScannedAs(r, Parse(s[begin..]), s, begin)
  {
    var t := s[begin..];
    var lexeme := ScanConstant(t);
    if lexeme.None? {
      lexeme := ScanNumber(t);
      NumberLeavesSuffix(t);
    }
    if lexeme.None? {
      return None;
    }
    r := Some((lexeme.value.0, |s| - |lexeme.value.1|));
  }

  /** The scanner's dispatch on the next character. */
  method ScanOnce(s: string, begin: nat) returns (r: Option<(Data, nat)>)
    requires begin <= |s|
    ensures ScannedAs(r, Parse(s[begin..]), s, begin)
    decreases |s| - begin, 0
  {
    if begin == |s| {
      return None;
    }
    assert s[begin..][0] == s[begin] && s[begin..][1..] == s[begin + 1..];
    if s[begin] == '{' {
      r := JsonObject(s, begin + 1);
    } else if s[begin] == '[' {
      r := JsonArray(s, begin + 1);
    } else if s[begin] == '"' {
      var text := ScanString(s, begin + 1);
      if text.None? {
        return None;
      }
      r := Some((Text(text.value.0), text.value.1));
    } else {
      r := ScanLexeme(s, begin);
    }
  }

  /** How one turn of a loop ends. */
  datatype Turn = Failed | Finished(end: nat) | Continued(end: nat)

  ghost predicate ItemsFrom(s: string, end: nat, values: seq<Data>, spec: Option<(Data, string)>) {
    end <= |s| && ParseItems(s[end..], values) == spec
  }

  ghost predicate ItemEnds(s: string, end: nat, values: seq<Data>, spec: Option<(Data, string)>) {
    end <= |s| && AfterItem(s[end..], values) == spec
  }

  /** The first half of JSONArray's loop body: a value. */
  method TakeItem(s: string, end: nat, values: seq<Data>, ghost spec: Option<(Data, string)>)
    returns (item: Option<(Data, nat)>)
    requires ItemsFrom(s, end, values, spec)
    ensures item.None? ==> spec == None
    ensures item.Some? ==> end < item.value.1 && ItemEnds(s, item.value.1, values + [item.value.0], spec)
    decreases |s| - end, 1
  {
    item := ScanOnce(s, end);
  }

  lemma ItemEnded(s: string, stop: nat, end: nat, values: seq<Data>, spec: Option<(Data, string)>)
    requires ItemEnds(s, end, values, spec) && stop <= |s| && s[stop..] == Skip(s[end..])
    ensures spec ==
            if stop == |s| then None
            else if s[stop] == ']' then Some((Array(values), s[stop + 1..]))
            else if s[stop] == ',' then ParseItems(Skip(s[stop + 1..]), values)
            else None
  {
    if stop < |s| {
      assert s[stop..][0] == s[stop] && s[stop..][1..] == s[stop + 1..];
    }
  }

  /** The second half: a comma or the closing bracket. */
  method EndItem(s: string, end: nat, values: seq<Data>, ghost spec: Option<(Data, string)>) returns (turn: Turn)
    requires ItemEnds(s, end, values, spec)
    ensures turn.Failed? ==> spec == None
    ensures !turn.Failed? ==> end < turn.end <= |s|
    ensures turn.Finished? ==> spec == Some((Array(values), s[turn.end..]))
    ensures turn.Continued? ==> ItemsFrom(s, turn.end, values, spec)
  {
    var stop := SkipSpace(s, end);
    ItemEnded(s, stop, end, values, spec);
    if stop < |s| && s[stop] == ']' {
      turn := Finished(stop + 1);
    } else if stop < |s| && s[stop] == ',' {
      var next := SkipSpace(s, stop + 1);
      turn := Continued(next);
    } else {
      turn := Failed;
    }
  }

  /** JSONArray: the values up to the closing bracket. */
  method JsonArray(s: string, begin: nat) returns (r: Option<(Data, nat)>)
    requires begin <= |s|
    ensures ScannedAs(r, ParseArray(s[begin..]), s, begin)
    decreases |s| - begin, 2
  {
    ghost var spec := ParseArray(s[begin..]);
    var end: nat := SkipSpace(s, begin);
    if end < |s| && s[end] == ']' {
      return Some((Array([]), end + 1));
    }
    var values: seq<Data> := [];
    while true
      invariant begin <= end && ItemsFrom(s, end, values, spec)
      decreases |s| - end
    {
      var item := TakeItem(s, end, values, spec);
      if item.None? {
        return None;
      }
      values := values + [item.value.0];
      var turn := EndItem(s, item.value.1, values, spec);
      if turn.Failed? {
        return None;
      }
      end := turn.end;
      if turn.Finished? {
        return Some((Array(values), end));
      }
    }
    assert false;
  }

  ghost predicate MembersFrom(s: string, end: nat, pairs: map<Unicode, Data>, spec: Option<(Data, string)>) {
    end <= |s| && ParseMembers(s[end..], pairs) == spec
  }

  ghost predicate MemberEnds(s: string, end: nat, pairs: map<Unicode, Data>, spec: Option<(Data, string)>) {
    end <= |s| && AfterMember(s[end..], pairs) == spec
  }

  /** The first half of JSONObject's loop body: a key, a colon and a value. */
  method TakeMember(s: string, end: nat, pairs: map<Unicode, Data>, ghost spec: Option<(Data, string)>)
    returns (member: Option<(Unicode, Data, nat)>)
    requires MembersFrom(s, end, pairs, spec)
    ensures member.None? ==> spec == None
    ensures member.Some? ==>
              end < member.value.2 && MemberEnds(s, member.value.2, pairs[member.value.0 := member.value.1], spec)
    decreases |s| - end, 1
  {
    member := JsonMember(s, end);
  }

  lemma MemberEnded(s: string, stop: nat, end: nat, pairs: map<Unicode, Data>, spec: Option<(Data, string)>)
    requires MemberEnds(s, end, pairs, spec) && stop <= |s| && s[stop..] == Skip(s[end..])
    ensures stop == |s| || (s[stop] != '}' && s[stop] != ',') ==> spec == None
    ensures stop < |s| && s[stop] == '}' ==> spec == Some((Object(pairs), s[stop + 1..]))
    ensures stop < |s| && s[stop] == ',' ==> spec == NextMember(Skip(s[stop + 1..]), pairs)
  {
    if stop < |s| {
      assert s[stop..][0] == s[stop] && s[stop..][1..] == s[stop + 1..];
    }
  }

  /** After a comma: the opening quote of the next key. */
  function NextMember(s: string, pairs: map<Unicode, Data>): Option<(Data, string)> {
    if s != [] && s[0] == '"' then ParseMembers(s[1..], pairs) else None
  }

  lemma NextMemberAt(s: string, next: nat, pairs: map<Unicode, Data>)
    requires next <= |s|
    ensures NextMember(s[next..], pairs) ==
            if next < |s| && s[next] == '"' then ParseMembers(s[next + 1..], pairs) else None
  {
    if next < |s| {
      assert s[next..][0] == s[next] && s[next..][1..] == s[next + 1..];
    }
  }

  /** The second half: the next key's opening quote or the closing brace. */
  method EndMember(s: string, end: nat, pairs: map<Unicode, Data>, ghost spec: Option<(Data, string)>)
    returns (turn: Turn)
    requires MemberEnds(s, end, pairs, spec)
    ensures turn.Failed? ==> spec == None
    ensures !turn.Failed? ==> end < turn.end <= |s|
    ensures turn.Finished? ==> spec == Some((Object(pairs), s[turn.end..]))
    ensures turn.Continued? ==> MembersFrom(s, turn.end, pairs, spec)
  {
    var stop := SkipSpace(s, end);
    MemberEnded(s, stop, end, pairs, spec);
    if stop < |s| && s[stop] == '}' {
      return Finished(stop + 1);
    }
    if stop == |s| || s[stop] != ',' {
      return Failed;
    }
    var next := SkipSpace(s, stop + 1);
    NextMemberAt(s, next, pairs);
    turn := if next < |s| && s[next] == '"' then Continued(next + 1) else Failed;
  }

  /** JSONObject: the members up to the closing brace, a later key replacing an equal one. */
  method JsonObject(s: string, begin: nat) returns (r: Option<(Data, nat)>)
    requires begin <= |s|
    ensures ScannedAs(r, ParseObject(s[begin..]), s, begin)
    decreases |s| - begin, 2
  {
    ghost var spec := ParseObject(s[begin..]);
    var end: nat := SkipSpace(s, begin);
    if end == |s| {
      return None;
    }
    assert s[end..][0] == s[end] && s[end..][1..] == s[end + 1..];
    if s[end] == '}' {
      return Some((Object(map[]), end + 1));
    }
    if s[end] != '"' {
      return None;
    }
    end := end + 1;
    var pairs: map<Unicode, Data> := map[];
    while true
      invariant begin < end && MembersFrom(s, end, pairs, spec)
      decreases |s| - end
    {
      var member := TakeMember(s, end, pairs, spec);
      if member.None? {
        return None;
      }
      pairs := pairs[member.value.0 := member.value.1];
      var turn := EndMember(s, member.value.2, pairs, spec);
      if turn.Failed? {
        return None;
      }
      end := turn.end;
      if turn.Finished? {
        return Some((Object(pairs), end));
      }
    }
    assert false;
  }

  /** One key, colon and value of JSONObject's loop. */
  method JsonMember(s: string, begin: nat) returns (r: Option<(Unicode, Data, nat)>)
    requires begin <= |s|
    ensures match ParseMember(s[begin..])
            case None => r.None?
            case Some((key, value, rest)) =>
              && r.Some? && r.value.0 == key && r.value.1 == value
              && begin < r.value.2 <= |s| && s[r.value.2..] == rest
    decreases |s| - begin, 0
  {
    var key := ScanString(s, begin);
    if key.None? {
      return None;
    }
    var end := SkipSpace(s, key.value.1);
    if end == |s| || s[end] != ':' {
      return None;
    }
    end := SkipSpace(s, end + 1);
    var value := ScanOnce(s, end);
    if value.None? {
      return None;
    }
    r := Some((key.value.0, value.value.0, value.value.1));
  }

  /** decode: one value with white space around it, and no extra data. */
  method DecodeDocument(s: string) returns (r: Option<Data>)
    ensures r == Decode(s)
  {
    assert s[0..] == s;
    var begin := SkipSpace(s, 0);
    var value := ScanOnce(s, begin);
    if value.None? {
      return None;
    }
    var end := SkipSpace(s, value.value.1);
    if end != |s| {
      return None;
    }
    r := Some(value.value.0);
  }

  /** Encoding and then decoding a value, through the loops. */
  method EncodeThenDecode(v: Value) returns (r: Option<Data>)
    ensures r.Some? && (Holds(v, r.value) <==> KeysApartThroughout(v))
  {
    var text := IterEncode(v);
    r := DecodeDocument(text);
    RoundTrip(v);
  }
}
