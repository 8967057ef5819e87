/** Escaping what a terminal would obey, and what that does to a JSON text (RFC 8259, sections 2 and 7). */
module Printable {
  import opened Wrappers

  // ----- the escaper

  predicate IsControl(c: char) {
    c as int < 0x20 || 0x7f <= c as int < 0xa0
  }

  /** What a terminal would obey or not show: controls, apart from line breaks and tabs, and marks that change
      direction or take no space. */
  predicate IsEscaped(c: char) {
    || (IsControl(c) && c != '\n' && c != '\t')
    || c as int == 0x61c || 0x200b <= c as int <= 0x200f || 0x202a <= c as int <= 0x202e
    || 0x2060 <= c as int <= 0x2064 || 0x2066 <= c as int <= 0x2069 || c as int == 0xfeff
  }

  function HexDigit(n: nat): char
    requires n < 16
  {
    "0123456789abcdef"[n]
  }

  /** `\u` and four hexadecimal digits. */
  function Escape(c: char): (e: string)
    requires IsEscaped(c)
    ensures |e| == 6
  {
    var n := c as int;
    ['\\', 'u', HexDigit(n / 4096), HexDigit(n / 256 % 16), HexDigit(n / 16 % 16), HexDigit(n % 16)]
  }

  function Shown(c: char): string {
    if IsEscaped(c) then Escape(c) else [c]
  }

  function MapShown(text: string): string {
    if text == "" then "" else Shown(text[0]) + MapShown(text[1..])
  }

  /** The text as it is when it holds nothing to escape, else every character shown. */
  function Printed(text: string): string {
    if !exists i | 0 <= i < |text| :: IsEscaped(text[i]) then text else MapShown(text)
  }

  lemma {:induction false} NothingToShow(text: string)
    requires forall i | 0 <= i < |text| :: !IsEscaped(text[i])
    ensures MapShown(text) == text
  {
    if text != "" {
      NothingToShow(text[1..]);
      assert [text[0]] + text[1..] == text;
    }
  }

  /** Answering the text itself is no different from showing each of its characters. */
  lemma PrintedIsShown(text: string)
    ensures Printed(text) == MapShown(text)
  {
    if !exists i | 0 <= i < |text| :: IsEscaped(text[i]) {
      NothingToShow(text);
    }
  }

  lemma {:induction false} ShownBoth(a: string, b: string)
    ensures MapShown(a + b) == MapShown(a) + MapShown(b)
  {
    if a == "" {
      assert a + b == b;
    } else {
      assert (a + b)[1..] == a[1..] + b;
      ShownBoth(a[1..], b);
    }
  }

  /** Printing two texts one after the other is printing both. */
  lemma PrintedBoth(a: string, b: string)
    ensures Printed(a + b) == Printed(a) + Printed(b)
  {
    PrintedIsShown(a);
    PrintedIsShown(b);
    PrintedIsShown(a + b);
    ShownBoth(a, b);
  }

  lemma HexDigitsShowAsTheyAre(n: nat)
    requires n < 16
    ensures !IsEscaped(HexDigit(n)) && HexValue(HexDigit(n)) == Some(n)
  {
  }

  lemma {:induction false} ShownHoldsNone(text: string, i: nat)
    requires i < |MapShown(text)|
    ensures !IsEscaped(MapShown(text)[i])
  {
    var head := Shown(text[0]);
    if i < |head| {
      if IsEscaped(text[0]) {
        var n := text[0] as int;
        HexDigitsShowAsTheyAre(n / 4096);
        HexDigitsShowAsTheyAre(n / 256 % 16);
        HexDigitsShowAsTheyAre(n / 16 % 16);
        HexDigitsShowAsTheyAre(n % 16);
      }
    } else {
      ShownHoldsNone(text[1..], i - |head|);
    }
  }

  /** What is printed holds no character to escape, so printing it again changes nothing. */
  lemma PrintedHoldsNone(text: string)
    ensures forall i | 0 <= i < |Printed(text)| :: !IsEscaped(Printed(text)[i])
    ensures Printed(Printed(text)) == Printed(text)
  {
    PrintedIsShown(text);
    forall i | 0 <= i < |Printed(text)| ensures !IsEscaped(Printed(text)[i]) {
      ShownHoldsNone(text, i);
    }
  }

  // ----- JSON strings

  function HexValue(c: char): Option<nat> {
    if '0' <= c <= '9' then Some(c as int - '0' as int)
    else if 'a' <= c <= 'f' then Some(c as int - 'a' as int + 10)
    else if 'A' <= c <= 'F' then Some(c as int - 'A' as int + 10)
    else None
  }

  /** The character a two-character escape stands for. */
  function ShortEscape(c: char): Option<nat> {
    match c
    case '\"' => Some(0x22)
    case '\\' => Some(0x5c)
    case '/' => Some(0x2f)
    case 'b' => Some(8)
    case 'f' => Some(12)
    case 'n' => Some(10)
    case 'r' => Some(13)
    case 't' => Some(9)
    case _ => None
  }

  /** A character's UTF-16 code units, which is what `\u` escapes spell. */
  function Units(c: char): seq<nat> {
    var n := c as int;
    if n < 0x10000 then [n]
    else [0xd800 + (n - 0x10000) / 1024, 0xdc00 + (n - 0x10000) % 1024]
  }

  /** The first character of a string's inside, as code units, and what follows it. */
  function Head(s: string): (h: Option<(seq<nat>, string)>)
    ensures h.Some? ==> |h.value.1| < |s| && s[0] != '\"'
  {
    if s == "" || s[0] == '\"' || s[0] < ' ' then None
    else if s[0] != '\\' then Some((Units(s[0]), s[1..]))
    else if |s| < 2 then None
    else if s[1] == 'u' then
      if |s| < 6 || HexValue(s[2]).None? || HexValue(s[3]).None? || HexValue(s[4]).None? || HexValue(s[5]).None? then None
      else
        var n := HexValue(s[2]).value * 4096 + HexValue(s[3]).value * 256 + HexValue(s[4]).value * 16 + HexValue(s[5]).value;
        Some(([n], s[6..]))
    else if ShortEscape(s[1]).Some? then Some(([ShortEscape(s[1]).value], s[2..]))
    else None
  }

  /** The characters a string's inside stands for; `None` when it is not well formed. */
  function StringValue(s: string): Option<seq<nat>>
    decreases |s|
  {
    if s == "" then Some([])
    else
      var head := Head(s);
      if head.None? then None
      else
        var rest := StringValue(head.value.1);
        if rest.Some? then Some(head.value.0 + rest.value) else None
  }

  lemma FourDigits(n: nat)
    requires n < 0x10000
    ensures n / 4096 < 16
    ensures n / 4096 * 4096 + n / 256 % 16 * 256 + n / 16 % 16 * 16 + n % 16 == n
  {
    var m := n / 16;
    assert n == m * 16 + n % 16;
    assert n / 256 == m / 16 && n / 4096 == m / 16 / 16;
  }

  lemma HeadOfDigits(d: string, rest: string)
    requires |d| == 6 && d[0] == '\\' && d[1] == 'u'
    requires forall i | 2 <= i < 6 :: HexValue(d[i]).Some?
    ensures Head(d + rest) == Some(([HexValue(d[2]).value * 4096 + HexValue(d[3]).value * 256
                                     + HexValue(d[4]).value * 16 + HexValue(d[5]).value], rest))
  {
    hide HexValue;
    var s := d + rest;
    assert s[0] == d[0] && s[1] == d[1] && s[2] == d[2] && s[3] == d[3] && s[4] == d[4] && s[5] == d[5];
    assert s[6..] == rest;
  }

  lemma EscapeReadsBack(c: char, rest: string)
    requires IsEscaped(c)
    ensures Head(Escape(c) + rest) == Some((Units(c), rest))
  {
    hide HexValue, HexDigit, Head;
    var n := c as int;
    FourDigits(n);
    HexDigitsShowAsTheyAre(n / 4096);
    HexDigitsShowAsTheyAre(n / 256 % 16);
    HexDigitsShowAsTheyAre(n / 16 % 16);
    HexDigitsShowAsTheyAre(n % 16);
    HeadOfDigits(Escape(c), rest);
  }

  lemma ShownAsIs(s: string, k: nat)
    requires k <= |s| && forall i | 0 <= i < k :: !IsEscaped(s[i])
    ensures MapShown(s) == s[..k] + MapShown(s[k..])
  {
    hide MapShown;
    assert s[..k] + s[k..] == s;
    NothingToShow(s[..k]);
    ShownBoth(s[..k], s[k..]);
  }

  lemma HexCharsShowAsTheyAre(c: char)
    requires HexValue(c).Some? || ShortEscape(c).Some? || c == '\\' || c == 'u'
    ensures !IsEscaped(c)
  {
  }

  /** Showing keeps the first character of a string's inside, and shows the rest. */
  lemma HeadOfShown(s: string)
    requires Head(s).Some?
    ensures Head(MapShown(s)) == Some((Head(s).value.0, MapShown(Head(s).value.1)))
  {
    hide HexValue, ShortEscape, Units, IsEscaped, Escape;
    if s[0] != '\\' {
      if IsEscaped(s[0]) {
        EscapeReadsBack(s[0], MapShown(s[1..]));
      } else {
        assert MapShown(s) == [s[0]] + MapShown(s[1..]);
      }
    } else if s[1] == 'u' {
      HexCharsShowAsTheyAre('\\');
      HexCharsShowAsTheyAre('u');
      HexCharsShowAsTheyAre(s[2]);
      HexCharsShowAsTheyAre(s[3]);
      HexCharsShowAsTheyAre(s[4]);
      HexCharsShowAsTheyAre(s[5]);
      ShownAsIs(s, 6);
    } else {
      HexCharsShowAsTheyAre('\\');
      HexCharsShowAsTheyAre(s[1]);
      ShownAsIs(s, 2);
    }
  }

  lemma {:induction false} ShownKeepsValue(s: string)
    requires StringValue(s).Some?
    ensures StringValue(MapShown(s)) == StringValue(s)
    decreases |s|
  {
    if s != "" {
      HeadOfShown(s);
      ShownKeepsValue(Head(s).value.1);
    }
  }

  /** A well-formed JSON string stands for the same characters when printed. */
  lemma PrintedKeepsStrings(s: string)
    requires StringValue(s).Some?
    ensures StringValue(Printed(s)) == StringValue(s)
  {
    PrintedIsShown(s);
    ShownKeepsValue(s);
  }

  // ----- JSON texts

  /** What a JSON text is made of: quotes, a string's code units, the characters of tokens, and gaps. */
  datatype Symbol = Quote | Unit(unit: nat) | Mark(c: char) | Gap

  predicate IsJsonSpace(c: char) {
    c == ' ' || c == '\t' || c == '\n' || c == '\r'
  }

  /** A character of a token outside strings. */
  predicate IsTokenChar(c: char) {
    || c == '{' || c == '}' || c == '[' || c == ']' || c == ':' || c == ','
    || 'a' <= c <= 'z' || 'A' <= c <= 'Z' || '0' <= c <= '9' || c == '+' || c == '-' || c == '.'
  }

  function AsUnits(units: seq<nat>): seq<Symbol> {
    seq(|units|, i requires 0 <= i < |units| => Unit(units[i]))
  }

  /** One symbol's worth of text, inside a string or outside: its symbols, what follows, and where that is. */
  function Step(s: string, inside: bool): (r: Option<(seq<Symbol>, string, bool)>)
    requires s != ""
    ensures r.Some? ==> |r.value.1| < |s|
  {
    if s[0] == '\"' then Some(([Quote], s[1..], !inside))
    else if inside then
      var head := Head(s);
      if head.None? then None else Some((AsUnits(head.value.0), head.value.1, true))
    else if IsJsonSpace(s[0]) then Some(([Gap], s[1..], false))
    else if IsTokenChar(s[0]) then Some(([Mark(s[0])], s[1..], false))
    else None
  }

  /** The symbols of a JSON text: the same symbols are the same JSON. `None` when it is no JSON text. */
  function Scan(s: string, inside: bool): Option<seq<Symbol>>
    decreases |s|
  {
    if s == "" then if inside then None else Some([])
    else
      var step := Step(s, inside);
      if step.None? then None
      else
        var rest := Scan(step.value.1, step.value.2);
        if rest.Some? then Some(step.value.0 + rest.value) else None
  }

  /** A carriage return stands between the text's tokens. */
  function HasBareReturn(s: string, inside: bool): bool
    decreases |s|
  {
    s != "" && Step(s, inside).Some? &&
    ((!inside && s[0] == '\r') || HasBareReturn(Step(s, inside).value.1, Step(s, inside).value.2))
  }

  lemma StepOfShown(s: string, inside: bool)
    requires s != "" && Step(s, inside).Some? && (inside || s[0] != '\r')
    ensures MapShown(s) != ""
    ensures var (symbols, rest, isInside) := Step(s, inside).value;
            Step(MapShown(s), inside) == Some((symbols, MapShown(rest), isInside))
  {
    if inside && s[0] != '\"' {
      HeadOfShown(s);
    } else {
      ShownAsIs(s, 1);
    }
  }

  lemma {:induction false} ShownKeepsJson(s: string, inside: bool)
    requires Scan(s, inside).Some?
    ensures Scan(MapShown(s), inside) == if HasBareReturn(s, inside) then None else Scan(s, inside)
    decreases |s|
  {
    if s != "" {
      var (symbols, rest, isInside) := Step(s, inside).value;
      if !inside && s[0] == '\r' {
        assert MapShown(s)[0] == '\\';
      } else {
        StepOfShown(s, inside);
        ShownKeepsJson(rest, isInside);
      }
    }
  }

  /** A JSON text stays the same JSON when printed exactly when no carriage return stands between its tokens. */
  lemma PrintedKeepsJsonExactly(s: string)
    requires Scan(s, false).Some?
    ensures Scan(Printed(s), false) == Scan(s, false) <==> !HasBareReturn(s, false)
  {
    PrintedIsShown(s);
    ShownKeepsJson(s, false);
  }

  /** The smallest text that does not stay JSON: an empty object with a carriage return in it. */
  lemma ReturnBetweenTokensIsLost()
    ensures Scan("{\r}", false).Some? && Scan(Printed("{\r}"), false) == None
  {
    var s := "{\r}";
    assert s[1..] == "\r}" && s[1..][1..] == "}" && s[1..][1..][1..] == "";
    assert Scan("}", false).Some?;
    assert Scan("\r}", false).Some?;
    assert HasBareReturn("\r}", false);
    ShownKeepsJson(s, false);
    PrintedIsShown(s);
  }

  // ----- which characters, and as what

  /** What is escaped, by code point: the controls but the tab and the line feed, the Arabic letter mark, the zero-width
      and direction marks, the embeddings and overrides, the word joiner to the invisible plus, the isolates, and the
      byte order mark. Escape itself is one. */
  lemma EscapedExactly(c: char)
    ensures var n := c as int;
            IsEscaped(c) <==>
            || n <= 8 || 11 <= n <= 31 || 127 <= n <= 159
            || n == 1564 || 8203 <= n <= 8207 || 8234 <= n <= 8238 || 8288 <= n <= 8292 || 8294 <= n <= 8297 || n == 65279
  {
  }

  /** It is written as `\u` and the four small hexadecimal digits of its code point. */
  lemma EscapeExactly(c: char) returns (a: nat, b: nat, d: nat, e: nat)
    requires IsEscaped(c)
    ensures a < 16 && b < 16 && d < 16 && e < 16 && c as int == a * 4096 + b * 256 + d * 16 + e
    ensures var digits := "0123456789abcdef"; Printed([c]) == ['\\', 'u', digits[a], digits[b], digits[d], digits[e]]
  {
    var n := c as int;
    a, b, d, e := n / 4096, n / 256 % 16, n / 16 % 16, n % 16;
    FourDigits(n);
    PrintedIsShown([c]);
    assert [c][1..] == "";
    assert MapShown([c]) == Shown(c) + "" == Escape(c);
  }

  /** The escape that starts a terminal's sequences. */
  lemma EscIsShown()
    ensures Printed([27 as char]) == "\\u001b"
  {
    var a, b, d, e := EscapeExactly(27 as char);
  }

  /** The short escapes of a JSON string, and what stands between and in its tokens, as RFC 8259 lists them. */
  lemma JsonCharactersExactly(c: char, n: nat)
    ensures ShortEscape(c) == Some(n) <==>
            (c as int, n) in {(34, 34), (92, 92), (47, 47), (98, 8), (102, 12), (110, 10), (114, 13), (116, 9)}
    ensures IsJsonSpace(c) <==> c as int == 32 || c as int == 9 || c as int == 10 || c as int == 13
    ensures IsTokenChar(c) <==>
            || c as int in {123, 125, 91, 93, 58, 44, 43, 45, 46}
            || 97 <= c as int <= 122 || 65 <= c as int <= 90 || 48 <= c as int <= 57
    ensures HexValue(c) == Some(n) <==> n < 16 && (c == "0123456789abcdef"[n] || c == "0123456789ABCDEF"[n])
  {
    if n < 16 {
      assert HexValue("0123456789abcdef"[n]) == HexValue("0123456789ABCDEF"[n]) == Some(n);
    }
  }

  /** A character past the first plane is its two surrogates, and they spell it. */
  lemma UnitsExactly(c: char)
    ensures c as int < 0x10000 ==> Units(c) == [c as int]
    ensures c as int >= 0x10000 ==>
              && |Units(c)| == 2 && 0xd800 <= Units(c)[0] < 0xdc00 && 0xdc00 <= Units(c)[1] < 0xe000
              && c as int == 0x10000 + (Units(c)[0] - 0xd800) * 1024 + (Units(c)[1] - 0xdc00)
  {
  }
}
