/**
 JSON string literals: the escaper, its C form with a growing output buffer, and the
 scanner that reads literals back (sections 7 and 8 of RFC 8259).
 */
module JsonStrings {
  import opened Decimal

  type CodePoint = c: nat | c < 0x110000

  /** A Python unicode string on a wide build: code points, lone surrogates allowed. */
  type Unicode = seq<CodePoint>

  // ----- the Python escaper -----

  function HexDigit(d: nat): char
    requires d < 16
  {
    if d < 10 then ('0' as int + d) as char else ('a' as int + d - 10) as char
  }

  /** The digits of n in base 16, most significant first. */
  function Hex(n: nat): string {
    if n < 16 then [HexDigit(n)] else Hex(n / 16) + [HexDigit(n % 16)]
  }

  function ZeroPad(s: string, width: nat): string {
    if |s| >= width then s else seq(width - |s|, _ => '0') + s
  }

  /** '\\u%04x' % n */
  function EscapeUnit(n: nat): string {
    "\\u" + ZeroPad(Hex(n), 4)
  }

  function High(c: nat): nat
    requires c >= 0x10000
  {
    0xd800 + ((c - 0x10000) / 0x400) % 0x400
  }

  function Low(c: nat): nat
    requires c >= 0x10000
  {
    0xdc00 + (c - 0x10000) % 0x400
  }

  /** Characters that need no escape. */
  predicate Plain(c: nat) {
    0x20 <= c <= 0x7e && c != 0x5c && c != 0x22 && c != 0x2f
  }

  /** The replacement of one character. */
  function EscapeChar(c: CodePoint): string {
    if Plain(c) then [c as char]
    else if c == 0x2f then "\\/"
    else if c == 0x5c then "\\\\"
    else if c == 0x22 then "\\\""
    else if c == 8 then "\\b"
    else if c == 12 then "\\f"
    else if c == 10 then "\\n"
    else if c == 13 then "\\r"
    else if c == 9 then "\\t"
    else if c < 0x10000 then EscapeUnit(c)
    else EscapeUnit(High(c)) + EscapeUnit(Low(c))
  }

  function EscapeAll(s: Unicode): string {
    if s == [] then "" else EscapeChar(s[0]) + EscapeAll(s[1..])
  }

  function Quote(s: Unicode): string {
    "\"" + EscapeAll(s) + "\""
  }

  // ----- four hexadecimal digits -----

  /** The C code's four nibbles. */
  function Nibbles(n: nat): string
    requires n < 0x10000
  {
    [HexDigit(n / 0x1000), HexDigit(n / 0x100 % 16), HexDigit(n / 0x10 % 16), HexDigit(n % 16)]
  }

  /** Formatting with %04x and extracting nibbles agree. */
  lemma PaddedHexIsNibbles(n: nat)
    requires n < 0x10000
    ensures ZeroPad(Hex(n), 4) == Nibbles(n)
  {
    LeadingNibbles(n);
    if n < 0x100 {
      HexOfShort(n);
      PadToFour(Hex(n));
    } else {
      HexOfLong(n);
      PadToFour(Hex(n));
    }
  }

  lemma LeadingNibbles(n: nat)
    ensures HexDigit(0) == '0'
    ensures n < 0x1000 ==> n / 0x1000 == 0 && n / 0x100 % 16 == n / 0x100
    ensures n < 0x100 ==> n / 0x100 == 0 && n / 0x10 % 16 == n / 0x10
    ensures n < 0x10 ==> n / 0x10 == 0 && n % 16 == n
  {
  }

  lemma PadToFour(s: string)
    ensures |s| == 1 ==> ZeroPad(s, 4) == ['0', '0', '0', s[0]]
    ensures |s| == 2 ==> ZeroPad(s, 4) == ['0', '0', s[0], s[1]]
    ensures |s| == 3 ==> ZeroPad(s, 4) == ['0', s[0], s[1], s[2]]
  {
  }

  lemma HexOfShort(n: nat)
    requires n < 0x10000
    ensures n < 16 ==> Hex(n) == [HexDigit(n)]
    ensures 16 <= n < 0x100 ==> Hex(n) == [HexDigit(n / 16), HexDigit(n % 16)]
  {
  }

  lemma HexOfLong(n: nat)
    requires 0x100 <= n < 0x10000
    ensures n < 0x1000 ==> Hex(n) == [HexDigit(n / 0x100), HexDigit(n / 16 % 16), HexDigit(n % 16)]
    ensures n >= 0x1000 ==>
              Hex(n) == [HexDigit(n / 0x1000), HexDigit(n / 0x100 % 16), HexDigit(n / 16 % 16), HexDigit(n % 16)]
  {
    HexOfShort(n / 0x100);
    assert n / 16 / 16 == n / 0x100 && n / 0x100 / 16 == n / 0x1000;
    assert Hex(n / 16) == Hex(n / 0x100) + [HexDigit(n / 16 % 16)];
    assert Hex(n) == Hex(n / 16) + [HexDigit(n % 16)];
  }

  // ----- the C escaper -----

  /** The longest expansion of a character: a surrogate pair takes two escapes. */
  function MaxExpansion(wide: bool): nat {
    if wide then 12 else 6
  }

  lemma EscapeUnitIsNibbles(n: nat)
    requires n < 0x10000
    ensures EscapeUnit(n) == ['\\', 'u'] + Nibbles(n) && |EscapeUnit(n)| == 6
  {
    PaddedHexIsNibbles(n);
  }

  lemma ExpansionIsBounded(c: CodePoint)
    ensures 1 <= |EscapeChar(c)| <= MaxExpansion(true)
    ensures c < 0x10000 ==> |EscapeChar(c)| <= MaxExpansion(false)
  {
    if c < 0x10000 {
      EscapeUnitIsNibbles(c);
    } else {
      EscapeUnitIsNibbles(High(c));
      EscapeUnitIsNibbles(Low(c));
    }
  }

  predicate Printable(text: string) {
    forall i :: 0 <= i < |text| ==> ' ' <= text[i] <= '~'
  }

  lemma UnitIsPrintable(n: nat)
    requires n < 0x10000
    ensures Printable(EscapeUnit(n))
  {
    EscapeUnitIsNibbles(n);
  }

  /** Whatever a string holds, its literal is printable ASCII. */
  lemma {:induction false} EscapedIsPrintable(s: Unicode)
    ensures Printable(EscapeAll(s))
  {
    if s != [] {
      var c := s[0];
      if c >= 0x10000 {
        UnitIsPrintable(High(c));
        UnitIsPrintable(Low(c));
      } else {
        UnitIsPrintable(c);
      }
      assert Printable(EscapeChar(c));
      EscapedIsPrintable(s[1..]);
    }
  }

  /** A backslash, a u and the four nibbles, written one by one. */
  method PutUnit(n: nat, output: array<char>, chars: nat) returns (chars': nat)
    requires n < 0x10000 && chars + 6 <= output.Length
    modifies output
    ensures chars' == chars + |EscapeUnit(n)| && |EscapeUnit(n)| == 6
    ensures output[..chars'] == old(output[..chars]) + EscapeUnit(n)
  {
    EscapeUnitIsNibbles(n);
    output[chars] := '\\';
    output[chars + 1] := 'u';
    output[chars + 2] := HexDigit(n / 0x1000);
    output[chars + 3] := HexDigit(n / 0x100 % 16);
    output[chars + 4] := HexDigit(n / 0x10 % 16);
    output[chars + 5] := HexDigit(n % 16);
    chars' := chars + 6;
    assert output[..chars'] == output[..chars] + output[chars..chars'];
    assert output[chars..chars'] == ['\\', 'u'] + Nibbles(n);
  }

  /** A backslash and one letter. */
  method PutShort(letter: char, output: array<char>, chars: nat) returns (chars': nat)
    requires chars + 2 <= output.Length
    modifies output
    ensures chars' == chars + 2
    ensures output[..chars'] == old(output[..chars]) + ['\\', letter]
  {
    output[chars] := '\\';
    output[chars + 1] := letter;
    chars' := chars + 2;
  }

  /** ascii_escape_char: the switch of the C code appends the Python replacement. */
  method AsciiEscapeChar(c: CodePoint, output: array<char>, chars: nat) returns (chars': nat)
    requires !Plain(c) && chars + |EscapeChar(c)| <= output.Length
    modifies output
    ensures chars' == chars + |EscapeChar(c)|
    ensures output[..chars'] == old(output[..chars]) + EscapeChar(c)
  {
    if c == 0x2f || c == 0x5c || c == 0x22 {
      chars' := PutShort(c as char, output, chars);
    } else if c == 8 {
      chars' := PutShort('b', output, chars);
    } else if c == 12 {
      chars' := PutShort('f', output, chars);
    } else if c == 10 {
      chars' := PutShort('n', output, chars);
    } else if c == 13 {
      chars' := PutShort('r', output, chars);
    } else if c == 9 {
      chars' := PutShort('t', output, chars);
    } else if c >= 0x10000 {
      EscapeUnitIsNibbles(High(c));
      EscapeUnitIsNibbles(Low(c));
      chars' := PutUnit(High(c), output, chars);
      chars' := PutUnit(Low(c), output, chars');
    } else {
      EscapeUnitIsNibbles(c);
      chars' := PutUnit(c, output, chars);
    }
  }

  /** _PyString_Resize: keeps the first bytes, also when it shrinks. */
  method Resize(output: array<char>, size: nat, chars: nat) returns (resized: array<char>)
    requires chars <= output.Length && chars <= size
    ensures fresh(resized) && resized.Length == size && resized[..chars] == output[..chars]
  {
    resized := new char[size];
    forall i | 0 <= i < chars {
      resized[i] := output[i];
    }
  }

  /** The final size: every character fully expanded, and two quotes. */
  function Cap(n: nat, expansion: nat): nat {
    2 + n * expansion
  }

  /** Room for the closing quote after done characters; a size below the first one is the cap. */
  predicate Fits(size: nat, chars: nat, done: nat, n: nat, expansion: nat) {
    && done <= n && expansion <= 12
    && 1 <= chars <= 1 + done * expansion
    && chars + 1 <= size
    && (26 <= size || size == Cap(n, expansion))
  }

  /** Room for one more full expansion as well, or the cap is reached. */
  predicate Roomy(size: nat, chars: nat, done: nat, n: nat, expansion: nat) {
    && Fits(size, chars, done, n, expansion)
    && (size >= chars + 1 + expansion || size == Cap(n, expansion))
  }

  lemma RoomForNext(size: nat, chars: nat, done: nat, n: nat, expansion: nat, len: nat)
    requires Roomy(size, chars, done, n, expansion) && done < n && len <= expansion
    ensures Fits(size, chars + len, done + 1, n, expansion)
  {
    assert (done + 1) * expansion == done * expansion + expansion;
    assert (done + 1) * expansion <= n * expansion;
  }

  /** The doubled and capped size is roomy again, even where the cap shrinks the buffer. */
  lemma GrownIsRoomy(size: nat, chars: nat, done: nat, n: nat, expansion: nat, grown: nat)
    requires Fits(size, chars, done, n, expansion) && size < chars + 1 + expansion
    requires grown == if size * 2 > Cap(n, expansion) then Cap(n, expansion) else size * 2
    ensures Roomy(grown, chars, done, n, expansion)
  {
    assert done * expansion <= n * expansion;
    if grown != Cap(n, expansion) && size < 26 {
      assert false;
    }
  }

  /** Doubles the output, up to the cap, when the next character might not fit. */
  method Grow(output: array<char>, chars: nat, ghost done: nat, n: nat, expansion: nat) returns (grown: array<char>)
    requires Fits(output.Length, chars, done, n, expansion)
    ensures grown == output || fresh(grown)
    ensures grown.Length >= chars && grown[..chars] == output[..chars]
    ensures Roomy(grown.Length, chars, done, n, expansion)
  {
    grown := output;
    var size := output.Length;
    if size - chars < 1 + expansion {
      size := size * 2;
      if size > 2 + n * expansion {
        size := 2 + n * expansion;
      }
      GrownIsRoomy(output.Length, chars, done, n, expansion, size);
      grown := Resize(output, size, chars);
    }
  }

  /** One character of the loops: written as it is, or escaped. */
  method PutChar(c: CodePoint, output: array<char>, chars: nat) returns (chars': nat)
    requires chars + |EscapeChar(c)| <= output.Length
    modifies output
    ensures chars' == chars + |EscapeChar(c)|
    ensures output[..chars'] == old(output[..chars]) + EscapeChar(c)
  {
    if Plain(c) {
      output[chars] := c as char;
      chars' := chars + 1;
    } else {
      chars' := AsciiEscapeChar(c, output, chars);
    }
  }

  /** The output so far: the opening quote and the escaped first characters. */
  predicate Written(text: string, s: Unicode, done: nat) {
    done <= |s| && text == "\"" + EscapeAll(s[..done])
  }

  lemma WrittenNext(text: string, s: Unicode, done: nat)
    requires done < |s| && Written(text, s, done)
    ensures Written(text + EscapeChar(s[done]), s, done + 1)
  {
    EscapeAllAppend(s, done);
    Regroup("\"", EscapeAll(s[..done]), EscapeChar(s[done]));
  }

  lemma Regroup(a: string, b: string, c: string)
    ensures a + b + c == a + (b + c)
  {
  }

  /** The body of both loops: room for one character is kept from one turn to the next. */
  method PutNext(s: Unicode, done: nat, output: array<char>, chars: nat, expansion: nat)
    returns (output': array<char>, chars': nat)
    requires done < |s| && (expansion == 12 || (expansion == 6 && s[done] < 0x10000))
    requires Roomy(output.Length, chars, done, |s|, expansion) && chars <= output.Length
    requires Written(output[..chars], s, done)
    modifies output
    ensures output' == output || fresh(output')
    ensures chars' <= output'.Length && Roomy(output'.Length, chars', done + 1, |s|, expansion)
    ensures Written(output'[..chars'], s, done + 1)
  {
    ExpansionIsBounded(s[done]);
    RoomForNext(output.Length, chars, done, |s|, expansion, |EscapeChar(s[done])|);
    WrittenNext(output[..chars], s, done);
    chars' := PutChar(s[done], output, chars);
    output' := Grow(output, chars', done + 1, |s|, expansion);
  }

  /** The start of both loops: a first estimate of the size, and the opening quote. */
  method Open(s: Unicode) returns (output: array<char>, chars: nat)
    ensures fresh(output) && output.Length == 2 + 6 * 4 + |s| && chars == 1
    ensures Written(output[..chars], s, 0)
    ensures Roomy(output.Length, chars, 0, |s|, 6) && Roomy(output.Length, chars, 0, |s|, 12)
  {
    output := new char[2 + 6 * 4 + |s|];
    output[0] := '"';
    chars := 1;
    assert s[..0] == [];
  }

  /** The end of both loops: the closing quote, and the cut to the used length. */
  method Close(s: Unicode, output: array<char>, chars: nat, expansion: nat) returns (result: string)
    requires Roomy(output.Length, chars, |s|, |s|, expansion) && chars < output.Length
    requires Written(output[..chars], s, |s|)
    modifies output
    ensures result == Quote(s) && |result| <= 2 + |s| * expansion
  {
    assert s[..|s|] == s;
    output[chars] := '"';
    result := output[..chars + 1];
  }

  /**
   The escaper for unicode strings: every write stays inside the output, whose capped
   growth may even shrink it, and the text is the one of the Python escaper.
   */
  method AsciiEscapeUnicode(input: Unicode, wide: bool) returns (result: string)
    requires !wide ==> forall c <- input :: c < 0x10000
    ensures result == Quote(input)
    ensures |result| <= 2 + |input| * MaxExpansion(wide)
  {
    var expansion := MaxExpansion(wide);
    var output: array<char>, chars: nat := Open(input);
    for i := 0 to |input|
      invariant fresh(output) && chars <= output.Length
      invariant Roomy(output.Length, chars, i, |input|, expansion)
      invariant Written(output[..chars], input, i)
    {
      assert input[i] in input;
      output, chars := PutNext(input, i, output, chars, expansion);
    }
    result := Close(input, output, chars, expansion);
  }

  type Byte = b: nat | b < 256

  /** The bytes of an ASCII string, as characters. */
  function Chars(bytes: seq<Byte>): (r: Unicode)
    ensures |r| == |bytes|
  {
    seq(|bytes|, i requires 0 <= i < |bytes| => bytes[i])
  }

  predicate Ascii(bytes: seq<Byte>) {
    forall b <- bytes :: b <= 0x7f
  }

  /**
   The escaper for byte strings: ASCII text is escaped directly with the smaller bound; the
   first byte above 0x7f restarts on the decoded string, whose decoding may fail.
   */
  method AsciiEscapeStr(input: seq<Byte>, decoded: Option<Unicode>, wide: bool) returns (result: Option<string>)
    requires !wide && decoded.Some? ==> forall c <- decoded.value :: c < 0x10000
    ensures Ascii(input) ==> result == Some(Quote(Chars(input))) && |result.value| <= 2 + |input| * 6
    ensures !Ascii(input) ==> result == match decoded case Some(text) => Some(Quote(text)) case None => None
  {
    var text := Chars(input);
    var output: array<char>, chars: nat := Open(text);
    for i := 0 to |text|
      invariant fresh(output) && chars <= output.Length
      invariant Roomy(output.Length, chars, i, |text|, 6)
      invariant Written(output[..chars], text, i)
      invariant forall j :: 0 <= j < i ==> input[j] <= 0x7f
    {
      if text[i] > 0x7f {
        assert input[i] in input;
        match decoded {
          case None => return None;
          case Some(unicode) =>
            var escaped := AsciiEscapeUnicode(unicode, wide);
            return Some(escaped);
        }
      }
      output, chars := PutNext(text, i, output, chars, 6);
    }
    var escaped := Close(text, output, chars, 6);
    result := Some(escaped);
  }

  lemma {:induction false} EscapeAllConcat(a: Unicode, b: Unicode)
    ensures EscapeAll(a + b) == EscapeAll(a) + EscapeAll(b)
  {
    if a == [] {
      assert a + b == b;
    } else {
      assert (a + b)[1..] == a[1..] + b;
      EscapeAllConcat(a[1..], b);
    }
  }

  lemma EscapeAllAppend(s: Unicode, i: nat)
    requires i < |s|
    ensures EscapeAll(s[..i + 1]) == EscapeAll(s[..i]) + EscapeChar(s[i])
  {
    assert s[..i + 1] == s[..i] + [s[i]] && [s[i]][1..] == [];
    EscapeAllConcat(s[..i], [s[i]]);
    assert EscapeAll([s[i]]) == EscapeChar(s[i]) + "";
  }

  // ----- the scanner -----

  predicate IsHex(c: char) {
    '0' <= c <= '9' || 'a' <= c <= 'f' || 'A' <= c <= 'F'
  }

  function HexValue(c: char): (r: nat)
    requires IsHex(c)
    ensures r < 16
  {
    if '0' <= c <= '9' then c as int - '0' as int
    else if 'a' <= c <= 'f' then c as int - 'a' as int + 10
    else c as int - 'A' as int + 10
  }

  /** int(esc, 16) on four alphanumeric characters: a 0x prefix is accepted, too. */
  function FourHex(a: char, b: char, c: char, d: char): (r: Option<CodePoint>)
    ensures r.Some? ==> r.value < 0x10000
  {
    if !IsHex(c) || !IsHex(d) then None
    else if IsHex(a) && IsHex(b) then
      Some(HexValue(a) * 0x1000 + HexValue(b) * 0x100 + HexValue(c) * 0x10 + HexValue(d))
    else if a == '0' && (b == 'x' || b == 'X') then Some(HexValue(c) * 0x10 + HexValue(d))
    else None
  }

  function Backslash(c: char): Option<CodePoint> {
    if c == '"' || c == '\\' || c == '/' then Some(c as int)
    else if c == 'b' then Some(8)
    else if c == 'f' then Some(12)
    else if c == 'n' then Some(10)
    else if c == 'r' then Some(13)
    else if c == 't' then Some(9)
    else None
  }

  /** The escape after a backslash: the character it stands for and its length. */
  function Escape(s: string): (r: Option<(CodePoint, nat)>)
    ensures r.Some? ==> 1 <= r.value.1 <= |s|
  {
    if s == [] then None
    else if s[0] != 'u' then
      match Backslash(s[0]) case Some(c) => Some((c, 1)) case None => None
    else if |s| < 5 then None
    else match FourHex(s[1], s[2], s[3], s[4]) case Some(c) => Some((c, 5)) case None => None
  }

  function Prepend(u: Unicode, scanned: Option<(Unicode, string)>): Option<(Unicode, string)> {
    match scanned
    case Some((v, rest)) => Some((u + v, rest))
    case None => None
  }

  /** The literal up to its closing quote and the text after it; None for a malformed one. */
  function Scan(s: string): (r: Option<(Unicode, string)>)
    ensures r.Some? ==> |r.value.1| < |s|
  {
    if s == [] then None
    else if s[0] == '"' then Some(([], s[1..]))
    else if s[0] != '\\' then Prepend([s[0] as int], Scan(s[1..]))
    else match Escape(s[1..])
      case Some((c, len)) => Prepend([c], Scan(s[1 + len..]))
      case None => None
  }

  /** What a string comes back as: code units, with a surrogate pair for a wide character. */
  function Units(c: CodePoint): Unicode {
    if c < 0x10000 then [c] else [High(c), Low(c)]
  }

  function Utf16(s: Unicode): Unicode {
    if s == [] then [] else Units(s[0]) + Utf16(s[1..])
  }

  lemma HexValueOfDigit(d: nat)
    requires d < 16
    ensures IsHex(HexDigit(d)) && HexValue(HexDigit(d)) == d
  {
  }

  lemma SumOfNibbles(n: nat)
    ensures n / 0x1000 * 0x1000 + n / 0x100 % 16 * 0x100 + n / 0x10 % 16 * 0x10 + n % 16 == n
  {
    assert n / 0x10 / 16 == n / 0x100 && n / 0x100 / 16 == n / 0x1000;
  }

  lemma FourHexOfNibbles(n: nat)
    requires n < 0x10000
    ensures var t := Nibbles(n); FourHex(t[0], t[1], t[2], t[3]) == Some(n)
  {
    SumOfNibbles(n);
    HexValueOfDigit(n / 0x1000);
    HexValueOfDigit(n / 0x100 % 16);
    HexValueOfDigit(n / 0x10 % 16);
    HexValueOfDigit(n % 16);
  }

  lemma ScanOfUnit(n: nat, rest: string)
    requires n < 0x10000
    ensures Scan(EscapeUnit(n) + rest) == Prepend([n], Scan(rest))
  {
    EscapeUnitIsNibbles(n);
    FourHexOfNibbles(n);
    var s, t := EscapeUnit(n) + rest, Nibbles(n);
    assert s[0] == '\\' && s[1] == 'u' && s[2] == t[0] && s[3] == t[1] && s[4] == t[2] && s[5] == t[3];
    assert s[6..] == rest;
    assert Escape(s[1..]) == Some((n, 5));
  }

  lemma ScanOfShort(letter: char, c: CodePoint, rest: string)
    requires letter != 'u' && Backslash(letter) == Some(c)
    ensures Scan(['\\', letter] + rest) == Prepend([c], Scan(rest))
  {
    var s := ['\\', letter] + rest;
    assert s[1..][0] == letter && s[2..] == rest;
    assert Escape(s[1..]) == Some((c, 1));
  }

  lemma PrependTwice(a: Unicode, b: Unicode, r: Option<(Unicode, string)>)
    ensures Prepend(a, Prepend(b, r)) == Prepend(a + b, r)
  {
    if r.Some? {
      assert a + (b + r.value.0) == a + b + r.value.0;
    }
  }

  lemma PrependNothing(r: Option<(Unicode, string)>)
    ensures Prepend([], r) == r
  {
    if r.Some? {
      assert [] + r.value.0 == r.value.0;
    }
  }

  lemma ScanOfPair(high: nat, low: nat, rest: string)
    requires high < 0x10000 && low < 0x10000
    ensures Scan(EscapeUnit(high) + EscapeUnit(low) + rest) == Prepend([high, low], Scan(rest))
  {
    Regroup(EscapeUnit(high), EscapeUnit(low), rest);
    ScanOfUnit(high, EscapeUnit(low) + rest);
    ScanOfUnit(low, rest);
    PrependTwice([high], [low], Scan(rest));
    assert [high] + [low] == [high, low];
  }

  /** Scanning undoes the escape of one character. */
  lemma ScanOfChar(c: CodePoint, rest: string)
    ensures Scan(EscapeChar(c) + rest) == Prepend(Units(c), Scan(rest))
  {
    if Plain(c) {
      assert ([c as char] + rest)[1..] == rest;
    } else if c >= 0x10000 {
      ScanOfPair(High(c), Low(c), rest);
    } else if c in {0x2f, 0x5c, 0x22, 8, 12, 10, 13, 9} {
      ScanOfShort(EscapeChar(c)[1], c, rest);
    } else {
      ScanOfUnit(c, rest);
    }
  }

  /** Scanning a quoted string gives its UTF-16 code units and exactly the text after it. */
  lemma {:induction false} ScanOfQuoted(s: Unicode, rest: string)
    ensures Scan(EscapeAll(s) + ("\"" + rest)) == Some((Utf16(s), rest))
  {
    var tail := "\"" + rest;
    if s == [] {
      assert EscapeAll(s) + tail == tail && tail[1..] == rest;
    } else {
      Regroup(EscapeChar(s[0]), EscapeAll(s[1..]), tail);
      ScanOfChar(s[0], EscapeAll(s[1..]) + tail);
      ScanOfQuoted(s[1..], rest);
    }
  }

  /** The result of a scan by index, against the one on the text that is left. */
  predicate ScannedAs<T(==)>(r: Option<(T, nat)>, spec: Option<(T, string)>, s: string, begin: nat) {
    match spec
    case None => r.None?
    case Some((x, rest)) => r.Some? && r.value.0 == x && begin < r.value.1 <= |s| && s[r.value.1..] == rest
  }

  /** The first quote or backslash at or after a position. */
  method NextSpecial(s: string, end: nat) returns (stop: nat)
    requires end <= |s|
    ensures end <= stop <= |s|
    ensures stop < |s| ==> s[stop] == '"' || s[stop] == '\\'
    ensures forall i :: end <= i < stop ==> s[i] != '"' && s[i] != '\\'
  {
    stop := end;
    while stop < |s| && s[stop] != '"' && s[stop] != '\\'
      invariant end <= stop <= |s|
      invariant forall i :: end <= i < stop ==> s[i] != '"' && s[i] != '\\'
    {
      stop := stop + 1;
    }
  }

  function Content(s: string): (r: Unicode)
    ensures |r| == |s|
  {
    seq(|s|, i requires 0 <= i < |s| => s[i] as int)
  }

  /** A chunk without quote or backslash is taken as it is. */
  lemma {:induction false} ScanOfChunk(s: string, end: nat, stop: nat)
    requires end <= stop <= |s|
    requires forall i :: end <= i < stop ==> s[i] != '"' && s[i] != '\\'
    ensures Scan(s[end..]) == Prepend(Content(s[end..stop]), Scan(s[stop..]))
    decreases stop - end
  {
    var rest := Scan(s[stop..]);
    if end == stop {
      assert rest.Some? ==> Content(s[end..stop]) + rest.value.0 == rest.value.0;
    } else {
      ScanOfChunk(s, end + 1, stop);
      assert s[end..][1..] == s[end + 1..];
      assert Content(s[end..stop]) == [s[end] as int] + Content(s[end + 1..stop]);
      PrependTwice([s[end] as int], Content(s[end + 1..stop]), rest);
    }
  }

  /** Scanning s[begin..] comes down to scanning s[end..] with the chunks read before it. */
  ghost predicate Reaches(s: string, begin: nat, chunks: Unicode, end: nat) {
    begin <= end <= |s| && Scan(s[begin..]) == Prepend(chunks, Scan(s[end..]))
  }

  lemma ChunkTaken(s: string, begin: nat, chunks: Unicode, end: nat, stop: nat)
    requires Reaches(s, begin, chunks, end) && end <= stop <= |s|
    requires forall i :: end <= i < stop ==> s[i] != '"' && s[i] != '\\'
    ensures Reaches(s, begin, chunks + Content(s[end..stop]), stop)
  {
    ScanOfChunk(s, end, stop);
    PrependTwice(chunks, Content(s[end..stop]), Scan(s[stop..]));
  }

  lemma QuoteEnds(s: string, begin: nat, chunks: Unicode, stop: nat)
    requires Reaches(s, begin, chunks, stop) && stop < |s| && s[stop] == '"'
    ensures Scan(s[begin..]) == Some((chunks, s[stop + 1..]))
  {
    assert s[stop..][0] == s[stop] && s[stop..][1..] == s[stop + 1..];
    assert chunks + [] == chunks;
  }

  lemma EscapeTaken(s: string, begin: nat, chunks: Unicode, stop: nat, escape: Option<(CodePoint, nat)>)
    requires Reaches(s, begin, chunks, stop) && stop < |s| && s[stop] == '\\'
    requires escape == Escape(s[stop + 1..])
    ensures escape.None? ==> Scan(s[begin..]) == None
    ensures escape.Some? ==> Reaches(s, begin, chunks + [escape.value.0], stop + 1 + escape.value.1)
  {
    assert s[stop..][0] == s[stop] && s[stop..][1..] == s[stop + 1..];
    if escape.Some? {
      var (c, len) := escape.value;
      assert s[stop..][1 + len..] == s[stop + 1 + len..];
      PrependTwice(chunks, [c], Scan(s[stop + 1 + len..]));
    }
  }

  /** scanstring: chunks up to the next quote or backslash, and one escape after each backslash. */
  method ScanString(s: string, begin: nat) returns (r: Option<(Unicode, nat)>)
    requires begin <= |s|
    ensures ScannedAs(r, Scan(s[begin..]), s, begin)
  {
    var chunks: Unicode, end: nat := [], begin;
    PrependNothing(Scan(s[begin..]));
    while true
      invariant Reaches(s, begin, chunks, end)
      decreases |s| - end
    {
      var stop := NextSpecial(s, end);
      ChunkTaken(s, begin, chunks, end, stop);
      chunks := chunks + Content(s[end..stop]);
      if stop == |s| {
        return None;
      }
      if s[stop] == '"' {
        QuoteEnds(s, begin, chunks, stop);
        return Some((chunks, stop + 1));
      }
      var escape := Escape(s[stop + 1..]);
      EscapeTaken(s, begin, chunks, stop, escape);
      if escape.None? {
        return None;
      }
      chunks := chunks + [escape.value.0];
      end := stop + 1 + escape.value.1;
    }
    assert false;
  }

  // ----- from code units back to characters -----

  predicate IsHigh(c: CodePoint) {
    0xd800 <= c < 0xdc00
  }

  predicate IsLow(c: CodePoint) {
    0xdc00 <= c < 0xe000
  }

  /** No high surrogate stands directly before a low one. */
  predicate Unpaired(s: Unicode) {
    forall i :: 0 <= i < |s| - 1 ==> !(IsHigh(s[i]) && IsLow(s[i + 1]))
  }

  /** Reads each surrogate pair as the character it encodes. */
  function Join(s: Unicode): Unicode {
    if |s| >= 2 && IsHigh(s[0]) && IsLow(s[1]) then
      [0x10000 + (s[0] - 0xd800) * 0x400 + (s[1] - 0xdc00)] + Join(s[2..])
    else if s == [] then []
    else [s[0]] + Join(s[1..])
  }

  lemma UnpairedSplits(s: Unicode)
    requires s != []
    ensures Unpaired(s) <==> Unpaired(s[1..]) && (|s| >= 2 ==> !(IsHigh(s[0]) && IsLow(s[1])))
  {
    var rest := s[1..];
    assert forall i :: 0 <= i < |rest| ==> rest[i] == s[i + 1];
    assert forall i :: 1 <= i < |s| ==> s[i] == rest[i - 1];
  }

  lemma JoinOfWide(c: CodePoint, rest: Unicode)
    requires c >= 0x10000
    ensures Join(Units(c) + rest) == [c] + Join(rest)
    ensures IsHigh(Units(c)[0]) && IsLow(Units(c)[1])
  {
    var s := Units(c) + rest;
    assert s[2..] == rest && s[0] == High(c) && s[1] == Low(c);
  }

  /** The units start with a low surrogate exactly when the string does. */
  lemma FirstUnit(s: Unicode)
    ensures s == [] <==> Utf16(s) == []
    ensures s != [] ==> (IsLow(Utf16(s)[0]) <==> IsLow(s[0]))
  {
    if s != [] && s[0] >= 0x10000 {
      JoinOfWide(s[0], []);
    }
  }

  /** A string survives as its code units exactly when it spells no pair out of surrogates. */
  lemma {:induction false} JoinUndoesUtf16(s: Unicode)
    ensures Join(Utf16(s)) == s <==> Unpaired(s)
  {
    if s != [] {
      var c, rest := s[0], s[1..];
      JoinUndoesUtf16(rest);
      UnpairedSplits(s);
      FirstUnit(rest);
      assert s == [c] + rest;
      if c >= 0x10000 {
        JoinOfWide(c, Utf16(rest));
        assert ([c] + Join(Utf16(rest)))[1..] == Join(Utf16(rest));
      } else {
        assert Utf16(s)[1..] == Utf16(rest) && Utf16(s)[0] == c;
        if IsHigh(c) && rest != [] && IsLow(rest[0]) {
          assert Utf16(s)[1] == Utf16(rest)[0];
          assert Join(Utf16(s))[0] >= 0x10000;
        } else {
          assert Join(Utf16(s)) == [c] + Join(Utf16(rest));
          assert ([c] + Join(Utf16(rest)))[1..] == Join(Utf16(rest));
        }
      }
    }
  }

  /** Strings without wide characters, all strings of a narrow build, come back unchanged. */
  lemma {:induction false} NarrowIsUnchanged(s: Unicode)
    ensures Utf16(s) == s <==> forall c <- s :: c < 0x10000
  {
    if s != [] {
      var c, rest := s[0], s[1..];
      NarrowIsUnchanged(rest);
      Utf16Length(rest);
      assert s == [c] + rest;
      assert c in s && forall d <- rest :: d in s;
      if c >= 0x10000 {
        assert |Utf16(s)| > |s|;
      } else {
        assert Utf16(s) == [c] + Utf16(rest) && Utf16(s)[1..] == Utf16(rest);
      }
    }
  }

  lemma Utf16Length(s: Unicode)
    ensures |Utf16(s)| >= |s|
  {
  }
}
