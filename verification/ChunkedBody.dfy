/** Putting a chunked body back together (section 7.1 of RFC 9112), over the bytes of its UTF-8 text (RFC 3629),
    which is what a lossy reading makes of the bytes received. */
module ChunkedBody {
  import opened Wrappers

  type Byte = b: nat | b < 256

  type Bytes = seq<Byte>

  const CR: Byte := 13
  const LF: Byte := 10
  const SEMICOLON: Byte := 59
  const PLUS: Byte := 43
  const ZERO: Byte := 48

  // ----- reading a size

  predicate IsSpace(b: Byte) {
    9 <= b <= 13 || b == 32
  }

  predicate IsHexDigit(b: Byte) {
    48 <= b <= 57 || 65 <= b <= 70 || 97 <= b <= 102
  }

  function HexDigitValue(b: Byte): nat
    requires IsHexDigit(b)
  {
    if b <= 57 then b - 48 else if b <= 70 then b - 55 else b - 87
  }

  predicate AreHexDigits(s: Bytes) {
    forall i | 0 <= i < |s| :: IsHexDigit(s[i])
  }

  function HexValue(s: Bytes): nat
    requires AreHexDigits(s)
  {
    if s == [] then 0 else HexValue(s[..|s| - 1]) * 16 + HexDigitValue(s[|s| - 1])
  }

  function TrimStart(s: Bytes): Bytes {
    if s != [] && IsSpace(s[0]) then TrimStart(s[1..]) else s
  }

  function TrimEnd(s: Bytes): Bytes {
    if s != [] && IsSpace(s[|s| - 1]) then TrimEnd(s[..|s| - 1]) else s
  }

  function Trim(s: Bytes): Bytes {
    TrimEnd(TrimStart(s))
  }

  /** `usize::from_str_radix(_, 16)`: hexadecimal digits, one `+` before them allowed, of a number that fits. */
  function ParseSize(s: Bytes): Option<nat> {
    var digits := if s != [] && s[0] == PLUS then s[1..] else s;
    if digits != [] && AreHexDigits(digits) && HexValue(digits) < 0x1_0000_0000_0000_0000
    then Some(HexValue(digits)) else None
  }

  // ----- the decoder

  /** Where the first `\r\n` is. */
  function FindLineEnd(s: Bytes): (at: Option<nat>)
    ensures at.Some? ==> at.value + 2 <= |s|
  {
    if |s| < 2 then None
    else if s[0] == CR && s[1] == LF then Some(0)
    else
      var at := FindLineEnd(s[1..]);
      if at.Some? then Some(at.value + 1) else None
  }

  function DropLineEnds(s: Bytes): (r: Bytes)
    ensures |r| <= |s|
  {
    if |s| >= 2 && s[0] == CR && s[1] == LF then DropLineEnds(s[2..]) else s
  }

  /** A byte inside a character: text cut before it is not text, and the slice panics. */
  predicate IsInsideCharacter(b: Byte) {
    128 <= b < 192
  }

  datatype Decoded = Text(whole: Bytes) | Panics

  /** The next chunk, if there is one: its data, and what follows the data. */
  datatype Next = Chunk(data: Bytes, rest: Bytes) | End | Broken

  /** What is taken of `tail` for the data of a chunk whose line gives this size. */
  function Taken(size: nat, tail: Bytes): (next: Next)
    ensures next.Chunk? ==> next.data + next.rest == tail && |next.data| == size > 0
  {
    if size == 0 || |tail| < size then End
    else if size < |tail| && IsInsideCharacter(tail[size]) then Broken
    else Chunk(tail[..size], tail[size..])
  }

  function NextChunk(body: Bytes): (next: Next)
    ensures next.Chunk? ==> |next.rest| < |body| && next.data != []
  {
    var at := FindLineEnd(body);
    if at.None? then End
    else
      var size := ParseSize(Trim(body[..at.value]));
      if size.None? then End else Taken(size.value, body[at.value + 2..])
  }

  function Prepended(data: Bytes, d: Decoded): Decoded {
    if d.Text? then Text(data + d.whole) else Panics
  }

  /** What the loop answers from `body` on. */
  function Decode(body: Bytes): Decoded
    decreases |body|
  {
    var next := NextChunk(body);
    match next
    case End => Text([])
    case Broken => Panics
    case Chunk(data, rest) => Prepended(data, Decode(DropLineEnds(rest)))
  }

  lemma PrependedTwice(a: Bytes, b: Bytes, d: Decoded)
    ensures Prepended(a, Prepended(b, d)) == Prepended(a + b, d)
  {
    if d.Text? {
      assert a + (b + d.whole) == a + b + d.whole;
    }
  }

  /** The decoder's loop; each turn takes at least a line from the body. */
  method Unchunked(body: Bytes) returns (decoded: Decoded)
    ensures decoded == Decode(body)
  {
    hide FindLineEnd, ParseSize, Trim, DropLineEnds;
    var left, whole := body, [];
    assert Prepended([], Decode(body)) == Decode(body);
    while true
      invariant Decode(body) == Prepended(whole, Decode(left))
      decreases |left|
    {
      var at := FindLineEnd(left);
      if at.None? { break; }
      var size := ParseSize(Trim(left[..at.value]));
      if size.None? { break; }
      var rest := left[at.value + 2..];
      if size.value == 0 || |rest| < size.value { break; }
      if size.value < |rest| && IsInsideCharacter(rest[size.value]) {
        return Panics;
      }
      assert NextChunk(left) == Chunk(rest[..size.value], rest[size.value..]);
      PrependedTwice(whole, rest[..size.value], Decode(DropLineEnds(rest[size.value..])));
      whole := whole + rest[..size.value];
      left := DropLineEnds(rest[size.value..]);
    }
    assert whole + [] == whole;
    decoded := Text(whole);
  }

  // ----- bytes read as text

  /** How many bytes a character takes whose first byte is this; none begins with another. */
  function Width(lead: Byte): nat {
    if lead < 128 then 1
    else if 194 <= lead < 224 then 2
    else if 224 <= lead < 240 then 3
    else if 240 <= lead < 245 then 4
    else 0
  }

  /** The byte can be the `i`th after the first byte of a character: no long form, no surrogate, nothing past the last plane. */
  predicate Follows(lead: Byte, i: nat, b: Byte) {
    && IsInsideCharacter(b)
    && (i == 1 ==>
          && (lead == 224 ==> b >= 160) && (lead == 237 ==> b < 160)
          && (lead == 240 ==> b >= 144) && (lead == 244 ==> b < 144))
  }

  /** How many of the first bytes belong to the character they begin, `i` of them already known to. */
  function Matched(s: Bytes, i: nat): (m: nat)
    requires 1 <= i <= |s|
    ensures i <= m <= |s|
    decreases |s| - i
  {
    if i < Width(s[0]) && i < |s| && Follows(s[0], i, s[i]) then Matched(s, i + 1) else i
  }

  const REPLACEMENT: Bytes := [239, 191, 189]

  /** `String::from_utf8_lossy`: what begins a character but does not end one is replaced. */
  function Lossy(s: Bytes): Bytes {
    if s == [] then []
    else
      var m := Matched(s, 1);
      (if m == Width(s[0]) then s[..m] else REPLACEMENT) + Lossy(s[m..])
  }

  /** The bytes are whole characters. */
  predicate IsText(s: Bytes) {
    s == [] || (Matched(s, 1) == Width(s[0]) && IsText(s[Width(s[0])..]))
  }

  /** Where the character begins that the byte `n` of a text is in. */
  function Start(s: Bytes, n: nat): (k: nat)
    requires IsText(s) && n <= |s|
    ensures k <= n
  {
    if s == [] || n < Width(s[0]) then 0 else Width(s[0]) + Start(s[Width(s[0])..], n - Width(s[0]))
  }

  lemma {:induction false} MatchedIn(s: Bytes, t: Bytes, i: nat)
    requires 1 <= i <= |s| && s <= t
    ensures Matched(t, i) >= Matched(s, i)
    ensures Matched(s, i) < |s| || Matched(s, i) == Width(s[0]) ==> Matched(t, i) == Matched(s, i)
    ensures |t| > |s| && !IsInsideCharacter(t[|s|]) ==> Matched(t, i) == Matched(s, i)
    decreases |s| - i
  {
    if i < Width(s[0]) && i < |s| && Follows(s[0], i, s[i]) {
      MatchedIn(s, t, i + 1);
    }
  }

  lemma FirstIsRead(a: Bytes, b: Bytes)
    requires IsText(a) && a != []
    ensures var w := Width(a[0]);
            1 <= w <= |a| && Matched(a + b, 1) == w && Lossy(a + b) == a[..w] + Lossy(a[w..] + b)
  {
    hide Width;
    var w := Width(a[0]);
    MatchedIn(a, a + b, 1);
    assert (a + b)[w..] == a[w..] + b && (a + b)[..w] == a[..w];
  }

  /** Whole characters are read as they are, whatever follows. */
  lemma {:induction false} LossyAfterText(a: Bytes, b: Bytes)
    requires IsText(a)
    ensures Lossy(a + b) == a + Lossy(b)
  {
    if a == [] {
      assert a + b == b;
    } else {
      hide Width, Matched, Lossy;
      var w := Width(a[0]);
      FirstIsRead(a, b);
      LossyAfterText(a[w..], b);
      RejoinAll(a, w, Lossy(b));
    }
  }

  lemma RejoinAll(s: Bytes, w: nat, end: Bytes)
    requires w <= |s|
    ensures s[..w] + (s[w..] + end) == s + end
  {
  }

  lemma LossyOfText(a: Bytes)
    requires IsText(a)
    ensures Lossy(a) == a
  {
    LossyAfterText(a, []);
    assert a + [] == a;
  }

  lemma {:induction false} TextBoth(a: Bytes, b: Bytes)
    requires IsText(a) && IsText(b)
    ensures IsText(a + b)
  {
    if a == [] {
      assert a + b == b;
    } else {
      var w := Width(a[0]);
      MatchedIn(a, a + b, 1);
      TextBoth(a[w..], b);
      assert (a + b)[w..] == a[w..] + b;
    }
  }

  lemma {:induction false} AsciiIsText(s: Bytes)
    requires forall i | 0 <= i < |s| :: s[i] < 128
    ensures IsText(s)
  {
    if s != [] {
      AsciiIsText(s[1..]);
    }
  }

  lemma {:induction false} MatchedWhenCut(s: Bytes, n: nat, i: nat)
    requires 1 <= i <= n <= |s| && n < Width(s[0]) && Matched(s, i) == Width(s[0])
    ensures Matched(s[..n], i) == n
    decreases n - i
  {
    if i < n {
      MatchedWhenCut(s, n, i + 1);
    }
  }

  lemma CutInFirst(s: Bytes, n: nat)
    requires IsText(s) && 0 < n <= |s| && n < Width(s[0])
    ensures Lossy(s[..n]) == REPLACEMENT && Start(s, n) == 0
  {
    hide Width, Follows;
    MatchedWhenCut(s, n, 1);
    var cut := s[..n];
    assert cut[0] == s[0] && cut[n..] == [];
  }

  lemma StartAfterFirst(s: Bytes, n: nat)
    requires IsText(s) && s != [] && Width(s[0]) <= n <= |s|
    ensures Start(s, n) == Width(s[0]) + Start(s[Width(s[0])..], n - Width(s[0]))
  {
  }

  lemma Rejoin(s: Bytes, w: nat, k: nat, end: Bytes)
    requires w <= k <= |s|
    ensures s[..w] + (s[w..][..k - w] + end) == s[..k] + end && s[..w] + s[w..][..k - w] == s[..k]
  {
  }

  ghost predicate IsCutAt(s: Bytes, n: nat, k: nat)
    requires k <= n <= |s|
  {
    Lossy(s[..n]) == s[..k] + if k == n then [] else REPLACEMENT
  }

  lemma CutAfterFirst(s: Bytes, n: nat, w: nat, k: nat)
    requires w <= k <= n <= |s| && IsText(s[..w])
    requires IsCutAt(s[w..], n - w, k - w)
    ensures IsCutAt(s, n, k)
  {
    hide Lossy, IsText;
    LossyAfterText(s[..w], s[w..][..n - w]);
    Rejoin(s, w, n, []);
    Rejoin(s, w, k, if k == n then [] else REPLACEMENT);
  }

  lemma {:induction false} CutAtStart(s: Bytes, n: nat)
    requires IsText(s) && n <= |s|
    ensures IsCutAt(s, n, Start(s, n))
  {
    if n == 0 {
    } else if n < Width(s[0]) {
      CutInFirst(s, n);
    } else {
      var w := Width(s[0]);
      FirstMatches(s);
      StartAfterFirst(s, n);
      CutAtStart(s[w..], n - w);
      hide *;
      CutAfterFirst(s, n, w, w + Start(s[w..], n - w));
    }
  }

  /** A text cut short is read up to the character the cut is in, which is replaced. */
  lemma LossyOfCut(s: Bytes, n: nat)
    requires IsText(s) && n <= |s|
    ensures Lossy(s[..n]) == s[..Start(s, n)] + if Start(s, n) == n then [] else REPLACEMENT
  {
    CutAtStart(s, n);
    hide Lossy, Start;
  }

  lemma FirstMatches(s: Bytes)
    requires IsText(s) && s != []
    ensures var w := Width(s[0]); 1 <= w <= |s| && IsText(s[..w])
  {
    var w := Width(s[0]);
    MatchedIn(s[..w], s, 1);
    assert s[..w][w..] == [];
  }

  lemma {:induction false} LossyMakesNoReturn(s: Bytes)
    requires CR !in s
    ensures CR !in Lossy(s)
  {
    if s != [] {
      LossyMakesNoReturn(s[Matched(s, 1)..]);
    }
  }

  // ----- encoding

  /** A chunk as written: its size's digits, its extension, and its data. */
  datatype Written = Written(size: Bytes, extension: Bytes, data: Bytes)

  /** An extension holds a `;`, and nothing in it ends a line. */
  ghost predicate IsExtension(e: Bytes) {
    SEMICOLON in e && CR !in e && IsText(e)
  }

  ghost predicate IsWritten(c: Written) {
    && c.data != [] && |c.data| < 0x1_0000_0000_0000_0000
    && AreHexDigits(c.size) && HexValue(c.size) == |c.data|
    && (c.extension == [] || IsExtension(c.extension))
  }

  ghost predicate AreWritten(cs: seq<Written>) {
    forall i | 0 <= i < |cs| :: IsWritten(cs[i])
  }

  function Line(c: Written): Bytes {
    c.size + c.extension
  }

  function Encode(c: Written): Bytes {
    Line(c) + [CR, LF] + c.data + [CR, LF]
  }

  /** The last chunk and whatever trailer follows it: zeros, perhaps an extension, and a line's end. */
  ghost predicate IsLast(zeros: Bytes, extension: Bytes) {
    && zeros != [] && (forall i | 0 <= i < |zeros| :: zeros[i] == ZERO)
    && (extension == [] || IsExtension(extension))
  }

  function Body(cs: seq<Written>, last: Bytes): Bytes {
    if cs == [] then last else Encode(cs[0]) + Body(cs[1..], last)
  }

  function DataOf(cs: seq<Written>): Bytes {
    if cs == [] then [] else cs[0].data + DataOf(cs[1..])
  }

  // ----- one line

  lemma {:induction false} LineEndIs(line: Bytes, tail: Bytes)
    requires CR !in line
    ensures FindLineEnd(line + [CR, LF] + tail) == Some(|line|)
  {
    var s := line + [CR, LF] + tail;
    if line != [] {
      assert s[0] == line[0] && line[0] in line;
      assert s[1..] == line[1..] + [CR, LF] + tail;
      LineEndIs(line[1..], tail);
    }
  }

  lemma {:induction false} NoLineEnd(s: Bytes)
    requires forall i | 0 <= i < |s| - 1 :: s[i] != CR
    ensures FindLineEnd(s) == None
  {
    if |s| >= 2 {
      NoLineEnd(s[1..]);
    }
  }

  lemma {:induction false} TrimKeeps(s: Bytes, b: Byte)
    requires b in s && !IsSpace(b)
    ensures b in TrimStart(s)
  {
    if IsSpace(s[0]) {
      assert s == [s[0]] + s[1..];
      TrimKeeps(s[1..], b);
    }
  }

  lemma {:induction false} TrimEndKeeps(s: Bytes, b: Byte)
    requires b in s && !IsSpace(b)
    ensures b in TrimEnd(s)
  {
    if IsSpace(s[|s| - 1]) {
      assert s == s[..|s| - 1] + [s[|s| - 1]];
      TrimEndKeeps(s[..|s| - 1], b);
    }
  }

  /** A size with an extension is no size. */
  lemma ExtensionIsNoSize(size: Bytes, extension: Bytes)
    requires IsExtension(extension)
    ensures ParseSize(Trim(size + extension)) == None
  {
    var line := size + extension;
    assert SEMICOLON in line;
    TrimKeeps(line, SEMICOLON);
    TrimEndKeeps(TrimStart(line), SEMICOLON);
    var t := Trim(line);
    var i :| 0 <= i < |t| && t[i] == SEMICOLON;
    if t[0] == PLUS {
      assert t[1..][i - 1] == SEMICOLON;
    }
  }

  lemma SizeIsSize(size: Bytes)
    requires size != [] && AreHexDigits(size)
    ensures ParseSize(Trim(size)) == if HexValue(size) < 0x1_0000_0000_0000_0000 then Some(HexValue(size)) else None
  {
    assert !IsSpace(size[0]) && !IsSpace(size[|size| - 1]);
    assert Trim(size) == size;
  }

  lemma {:induction false} ZerosAreZero(zeros: Bytes)
    requires forall i | 0 <= i < |zeros| :: zeros[i] == ZERO
    ensures AreHexDigits(zeros) && HexValue(zeros) == 0
  {
    if zeros != [] {
      ZerosAreZero(zeros[..|zeros| - 1]);
    }
  }

  lemma DigitsAreNoLineEnd(size: Bytes, extension: Bytes)
    requires AreHexDigits(size) && (extension == [] || IsExtension(extension))
    ensures CR !in size + extension
  {
  }

  lemma LineIsText(size: Bytes, extension: Bytes)
    requires AreHexDigits(size) && (extension == [] || IsExtension(extension))
    ensures IsText(size + extension) && CR !in size + extension
  {
    AsciiIsText(size);
    TextBoth(size, extension);
    DigitsAreNoLineEnd(size, extension);
  }

  /** A piece of a line, or of its end, is read as no line. */
  lemma PartOfLine(line: Bytes, tail: Bytes, n: nat)
    requires CR !in line && IsText(line) && n < |line| + 2 && n <= |line + [CR, LF] + tail|
    ensures FindLineEnd(Lossy((line + [CR, LF] + tail)[..n])) == None
  {
    var s := (line + [CR, LF] + tail)[..n];
    if n <= |line| {
      assert s == line[..n];
      LossyMakesNoReturn(s);
      NoReturnNoLine(Lossy(s));
    } else {
      assert s == line + [CR];
      LossyAfterText(line, [CR]);
      OneReturnNoLine(line);
    }
  }

  lemma NoReturnNoLine(s: Bytes)
    requires CR !in s
    ensures FindLineEnd(s) == None
  {
    NoLineEnd(s);
  }

  lemma OneReturnNoLine(line: Bytes)
    requires CR !in line
    ensures FindLineEnd(line + Lossy([CR])) == None
  {
    AsciiIsText([CR]);
    LossyOfText([CR]);
    forall i | 0 <= i < |line| ensures (line + [CR])[i] != CR {
      assert line[i] in line;
    }
    NoLineEnd(line + [CR]);
  }

  /** A whole line in the first `n` bytes. */
  lemma WholeLine(line: Bytes, tail: Bytes, n: nat)
    requires CR !in line && IsText(line) && |line| + 2 <= n <= |line + [CR, LF] + tail|
    ensures var s := Lossy((line + [CR, LF] + tail)[..n]);
            && FindLineEnd(s) == Some(|line|) && s[..|line|] == line
            && s[|line| + 2..] == Lossy(tail[..n - |line| - 2])
  {
    var cut := tail[..n - |line| - 2];
    assert (line + [CR, LF] + tail)[..n] == line + [CR, LF] + cut;
    AsciiIsText([CR, LF]);
    TextBoth(line, [CR, LF]);
    LossyAfterText(line + [CR, LF], cut);
    LineEndIs(line, Lossy(cut));
  }

  // ----- decoding what was encoded, whole or cut short

  /** How many chunks the first `n` bytes give: those with no extension before any that has one, whose data
      is all there. */
  function Given(cs: seq<Written>, n: int): (k: nat)
    ensures k <= |cs|
  {
    if cs == [] || cs[0].extension != [] || n < |Line(cs[0])| + 2 + |cs[0].data| then 0
    else 1 + Given(cs[1..], n - |Encode(cs[0])|)
  }

  /** How many bytes of its chunk's data there are from the character on that a cut after `n` bytes is in; none when
      it is in no character of a chunk that is come to. */
  ghost function FromCut(cs: seq<Written>, n: int): nat
    requires AreTexts(cs)
  {
    if cs == [] || cs[0].extension != [] || n < |Line(cs[0])| + 2 then 0
    else
      var data, m := cs[0].data, n - |Line(cs[0])| - 2;
      assert IsText(data);
      if m < |data| then if Start(data, m) == m then 0 else |data| - Start(data, m)
      else FromCut(cs[1..], n - |Encode(cs[0])|)
  }

  /** Every chunk's data is whole characters. */
  ghost predicate AreTexts(cs: seq<Written>) {
    forall i | 0 <= i < |cs| :: IsText(cs[i].data)
  }

  lemma LastGivesNothing(zeros: Bytes, extension: Bytes, trailer: Bytes, n: nat)
    requires IsLast(zeros, extension) && n <= |zeros + extension + [CR, LF] + trailer|
    ensures Decode(Lossy((zeros + extension + [CR, LF] + trailer)[..n])) == Text([])
  {
    hide Lossy, IsText, ParseSize, Trim, FindLineEnd;
    var line := zeros + extension;
    ZerosAreZero(zeros);
    LineIsText(zeros, extension);
    if n < |line| + 2 {
      PartOfLine(line, trailer, n);
    } else {
      WholeLine(line, trailer, n);
      if extension == [] {
        assert line == zeros;
        SizeIsSize(zeros);
      } else {
        ExtensionIsNoSize(zeros, extension);
      }
    }
  }

  /** What follows a body's start is a size's digit, so that dropping line ends stops there. */
  lemma BodyStartsWithDigit(cs: seq<Written>, last: Bytes)
    requires AreWritten(cs) && last != [] && last[0] == ZERO
    ensures Body(cs, last) != [] && IsHexDigit(Body(cs, last)[0])
  {
    if cs != [] {
      var c := cs[0];
      assert IsWritten(c);
      assert c.size != [];
      assert Body(cs, last)[0] == c.size[0];
    }
  }

  lemma StartIsRead(rest: Bytes, n: nat)
    requires rest != [] && IsHexDigit(rest[0]) && n <= |rest|
    ensures n > 0 ==> Lossy(rest[..n]) != [] && Lossy(rest[..n])[0] == rest[0]
    ensures DropLineEnds(Lossy(rest[..n])) == Lossy(rest[..n])
  {
    if n > 0 {
      AsciiIsText([rest[0]]);
      LossyAfterText([rest[0]], rest[..n][1..]);
      assert rest[..n] == [rest[0]] + rest[..n][1..];
    }
  }

  /** The end of a chunk's data, as read. */
  lemma DropBetween(rest: Bytes, n: nat)
    requires rest != [] && IsHexDigit(rest[0]) && n <= |[CR, LF] + rest|
    ensures n >= 2 ==> DropLineEnds(Lossy(([CR, LF] + rest)[..n])) == Lossy(rest[..n - 2])
    ensures n < 2 ==> Decode(DropLineEnds(Lossy(([CR, LF] + rest)[..n]))) == Text([])
    ensures n > 0 ==> Lossy(([CR, LF] + rest)[..n]) != [] && Lossy(([CR, LF] + rest)[..n])[0] == CR
    ensures n == 0 ==> Lossy(([CR, LF] + rest)[..n]) == []
  {
    hide Lossy, IsText;
    var s := ([CR, LF] + rest)[..n];
    if n >= 2 {
      AsciiIsText([CR, LF]);
      assert s == [CR, LF] + rest[..n - 2];
      LossyAfterText([CR, LF], rest[..n - 2]);
      StartIsRead(rest, n - 2);
      assert ([CR, LF] + Lossy(rest[..n - 2]))[2..] == Lossy(rest[..n - 2]);
    } else {
      AsciiIsText(s);
      LossyOfText(s);
      NoLineEnd(s);
    }
  }

  /** The data of a chunk, as read: whole and followed by its line's end, or cut. */
  lemma DataInTail(data: Bytes, rest: Bytes, m: nat)
    requires IsText(data) && m <= |data + [CR, LF] + rest|
    ensures var tail := Lossy((data + [CR, LF] + rest)[..m]);
            tail == if m >= |data| then data + Lossy(([CR, LF] + rest)[..m - |data|])
                    else data[..Start(data, m)] + if Start(data, m) == m then [] else REPLACEMENT
  {
    hide Lossy, IsText, Start;
    var s := (data + [CR, LF] + rest)[..m];
    if m >= |data| {
      assert s == data + ([CR, LF] + rest)[..m - |data|];
      LossyAfterText(data, ([CR, LF] + rest)[..m - |data|]);
    } else {
      assert s == data[..m];
      LossyOfCut(data, m);
    }
  }

  /** The first chunk is taken by its line, or nothing is. */
  lemma FirstLine(c: Written, rest: Bytes, n: nat)
    requires IsWritten(c) && n <= |Encode(c) + rest|
    ensures NextChunk(Lossy((Encode(c) + rest)[..n])) ==
            if c.extension != [] || n < |Line(c)| + 2 then End
            else Taken(|c.data|, Lossy((c.data + [CR, LF] + rest)[..n - |Line(c)| - 2]))
  {
    hide FindLineEnd, ParseSize, Trim, HexValue, Lossy, IsText;
    var line := Line(c);
    var tail := c.data + [CR, LF] + rest;
    assert Encode(c) + rest == line + [CR, LF] + tail;
    LineIsText(c.size, c.extension);
    if n < |line| + 2 {
      PartOfLine(line, tail, n);
    } else {
      WholeLine(line, tail, n);
      if c.extension == [] {
        assert line == c.size;
        SizeIsNotEmpty(c);
        SizeIsSize(c.size);
      } else {
        ExtensionIsNoSize(c.size, c.extension);
      }
    }
  }

  lemma SizeIsNotEmpty(c: Written)
    requires IsWritten(c)
    ensures c.size != []
  {
  }

  lemma WholeDataIsTaken(data: Bytes, rest: Bytes, m: nat)
    requires IsText(data) && data != [] && |data| <= m <= |data + [CR, LF] + rest|
    requires rest != [] && IsHexDigit(rest[0])
    ensures Taken(|data|, Lossy((data + [CR, LF] + rest)[..m])) == Chunk(data, Lossy(([CR, LF] + rest)[..m - |data|]))
  {
    hide Lossy, IsText;
    DataInTail(data, rest, m);
    DropBetween(rest, m - |data|);
  }

  /** A cut chunk gives nothing, unless a character is cut that has two or three bytes left of the chunk: then the
      replacement is taken for them, or cut itself. */
  lemma CutDataIsTaken(data: Bytes, rest: Bytes, m: nat)
    requires IsText(data) && m < |data| && m <= |data + [CR, LF] + rest|
    ensures var k := Start(data, m);
            Taken(|data|, Lossy((data + [CR, LF] + rest)[..m])) ==
            if k == m || |data| - k > 3 then End
            else if |data| - k == 2 then Broken
            else Chunk(data[..k] + REPLACEMENT, [])
  {
    hide Lossy, IsText, Start;
    DataInTail(data, rest, m);
    StartIsBelow(data, m);
  }

  lemma StartIsBelow(data: Bytes, m: nat)
    requires IsText(data) && m < |data|
    ensures Start(data, m) <= m
  {
  }

  lemma GivenFirst(cs: seq<Written>, n: nat)
    requires AreTexts(cs) && cs != [] && cs[0].extension == [] && n >= |Line(cs[0])| + 2 + |cs[0].data|
    ensures var left := n - |Encode(cs[0])|;
            && DataOf(cs[..Given(cs, n)]) == cs[0].data + DataOf(cs[1..][..Given(cs[1..], left)])
            && FromCut(cs, n) == FromCut(cs[1..], left)
            && (left < 0 ==> Given(cs[1..], left) == 0 && FromCut(cs[1..], left) == 0)
  {
    hide IsText;
    assert cs[..Given(cs, n)][1..] == cs[1..][..Given(cs, n) - 1];
  }

  lemma GivenOfCut(cs: seq<Written>, n: nat)
    requires AreTexts(cs) && cs != []
    requires cs[0].extension != [] || n < |Line(cs[0])| + 2 + |cs[0].data|
    ensures DataOf(cs[..Given(cs, n)]) == []
  {
  }

  lemma PrependedIs(data: Bytes, d: Decoded, whole: Bytes)
    ensures Prepended(data, d) == Text(data + whole) <==> d == Text(whole)
    ensures Prepended(data, d) == Panics <==> d == Panics
  {
    if d.Text? && data + d.whole == data + whole {
      assert (data + d.whole)[|data|..] == d.whole && (data + whole)[|data|..] == whole;
    }
  }

  /** A text cut short anywhere gives the data of the chunks that are whole, exactly when the cut does not fall in a
      character that has two or three bytes left of its chunk; and it panics exactly when it has two. */
  lemma {:induction false} DecodesWhatIsGiven(cs: seq<Written>, zeros: Bytes, extension: Bytes, trailer: Bytes, n: nat)
    requires AreWritten(cs) && AreTexts(cs) && IsLast(zeros, extension)
    requires n <= |Body(cs, zeros + extension + [CR, LF] + trailer)|
    ensures var decoded := Decode(Lossy(Body(cs, zeros + extension + [CR, LF] + trailer)[..n]));
            && (decoded == Text(DataOf(cs[..Given(cs, n)])) <==> FromCut(cs, n) != 2 && FromCut(cs, n) != 3)
            && (decoded == Panics <==> FromCut(cs, n) == 2)
  {
    hide NextChunk, DropLineEnds, IsWritten, IsText, Lossy, Start, Taken, Prepended;
    var last := zeros + extension + [CR, LF] + trailer;
    if cs == [] {
      LastGivesNothing(zeros, extension, trailer, n);
    } else {
      var c, rest := cs[0], Body(cs[1..], last);
      assert IsWritten(c) && IsText(c.data);
      FirstLine(c, rest, n);
      BodyStartsWithDigit(cs[1..], last);
      if c.extension != [] || n < |Line(c)| + 2 {
        GivenOfCut(cs, n);
      } else {
        var m := n - |Line(c)| - 2;
        var tail := Lossy((c.data + [CR, LF] + rest)[..m]);
        if m < |c.data| {
          GivenOfCut(cs, n);
          CutDataIsTaken(c.data, rest, m);
          DecodeCut(c.data[..Start(c.data, m)], Lossy((Encode(c) + rest)[..n]));
        } else {
          WrittenIsNotEmpty(c);
          WholeDataIsTaken(c.data, rest, m);
          DropBetween(rest, m - |c.data|);
          GivenFirst(cs, n);
          var left := n - |Encode(c)|;
          if left >= 0 {
            DecodesWhatIsGiven(cs[1..], zeros, extension, trailer, left);
          }
          var more := Decode(DropLineEnds(Lossy(([CR, LF] + rest)[..m - |c.data|])));
          PrependedIs(c.data, more, DataOf(cs[1..][..Given(cs[1..], left)]));
        }
      }
    }
  }

  lemma DecodeCut(kept: Bytes, body: Bytes)
    ensures NextChunk(body) == Chunk(kept + REPLACEMENT, []) ==> Decode(body) == Text(kept + REPLACEMENT)
    ensures kept + REPLACEMENT != []
  {
    assert kept + REPLACEMENT + [] == kept + REPLACEMENT;
    assert |kept + REPLACEMENT| > 0;
  }

  lemma WrittenIsNotEmpty(c: Written)
    requires IsWritten(c)
    ensures c.data != []
  {
  }

  // ----- a whole body, whatever its chunks hold

  /** Where the first bytes stand that are no character. */
  lemma {:induction false} FirstFault(data: Bytes, tail: Bytes) returns (p: nat, read: Bytes)
    requires !IsText(data) && tail != [] && tail[0] == CR
    ensures p < |data| && IsText(data[..p])
    ensures Lossy(data + tail) == data[..p] + REPLACEMENT + read
    ensures |data| >= p + 3 ==> data[p..p + 3] != REPLACEMENT
  {
    var w := Width(data[0]);
    MatchedIn(data, data + tail, 1);
    if Matched(data, 1) == w {
      var q;
      q, read := FirstFault(data[w..], tail);
      p := w + q;
      FaultAfterFirst(data, tail, w, q, read);
    } else {
      p := 0;
      var m := Matched(data, 1);
      read := Lossy((data + tail)[m..]);
      assert data[..0] + REPLACEMENT + read == REPLACEMENT + read;
      if |data| >= 3 && data[0..3] == REPLACEMENT {
        ReplacementMatches(data);
      }
    }
  }

  lemma ReplacementMatches(data: Bytes)
    requires |data| >= 3 && data[0..3] == REPLACEMENT
    ensures Matched(data, 1) == Width(data[0])
  {
    assert data[0] == REPLACEMENT[0] && data[1] == REPLACEMENT[1] && data[2] == REPLACEMENT[2];
    assert Matched(data, 3) == 3 && Matched(data, 2) == 3;
  }

  lemma FaultAfterFirst(data: Bytes, tail: Bytes, w: nat, q: nat, read: Bytes)
    requires 1 <= w <= |data| && w == Width(data[0]) && Matched(data, 1) == w && q < |data| - w && IsText(data[w..][..q])
    requires Lossy(data[w..] + tail) == data[w..][..q] + REPLACEMENT + read
    requires |data[w..]| >= q + 3 ==> data[w..][q..q + 3] != REPLACEMENT
    ensures IsText(data[..w + q])
    ensures Lossy(data + tail) == data[..w + q] + REPLACEMENT + read
    ensures |data| >= w + q + 3 ==> data[w + q..w + q + 3] != REPLACEMENT
  {
    FirstOfAnyIsText(data, w);
    hide Width, Matched, Lossy, IsText;
    TextBoth(data[..w], data[w..][..q]);
    Rejoin(data, w, w + q, []);
    LossyAfterText(data[..w], data[w..] + tail);
    RejoinAll(data, w, tail);
    Rejoin(data, w, w + q, REPLACEMENT + read);
    Regroup(data[w..][..q], REPLACEMENT, read);
    Regroup(data[..w + q], REPLACEMENT, read);
    SliceOfRest(data, w, q);
  }

  lemma Regroup(a: Bytes, b: Bytes, c: Bytes)
    ensures a + b + c == a + (b + c)
  {
  }

  lemma SliceOfRest(data: Bytes, w: nat, q: nat)
    requires w <= |data|
    ensures |data| >= w + q + 3 ==> data[w..][q..q + 3] == data[w + q..w + q + 3]
  {
  }

  lemma FirstOfAnyIsText(data: Bytes, w: nat)
    requires 1 <= w <= |data| && w == Width(data[0]) && Matched(data, 1) == w
    ensures IsText(data[..w])
  {
    MatchedIn(data[..w], data, 1);
    assert data[..w][w..] == [];
  }

  /** Data that is not whole characters never comes back as it was. */
  lemma FaultIsNotTaken(data: Bytes, rest: Bytes, more: Decoded, whole: Bytes)
    requires !IsText(data)
    ensures var next := Taken(|data|, Lossy(data + [CR, LF] + rest));
            next.Chunk? ==> Prepended(next.data, more) != Text(data + whole)
  {
    var tail := [CR, LF] + rest;
    assert data + [CR, LF] + rest == data + tail;
    var p, read := FirstFault(data, tail);
    hide Lossy, IsText;
    var next := Taken(|data|, Lossy(data + tail));
    if next.Chunk? {
      ReplacementIsWhole(data[..p], read, |data|);
      assert next.data[p..p + 3] == REPLACEMENT;
      if more.Text? {
        SliceOfFirst(next.data, more.whole, p);
        SliceOfFirst(data, whole, p);
      }
    }
  }

  /** What is taken up to `n` bytes, past a replacement's start, takes the whole of it or is broken. */
  lemma ReplacementIsWhole(front: Bytes, read: Bytes, n: nat)
    requires n > |front| && Taken(n, front + REPLACEMENT + read).Chunk?
    ensures n >= |front| + 3
    ensures Taken(n, front + REPLACEMENT + read).data[|front|..|front| + 3] == REPLACEMENT
  {
    var t, p := front + REPLACEMENT + read, |front|;
    assert t[p] == REPLACEMENT[0] && t[p + 1] == REPLACEMENT[1] && t[p + 2] == REPLACEMENT[2];
  }

  lemma SliceOfFirst(a: Bytes, b: Bytes, p: nat)
    requires p + 3 <= |a|
    ensures (a + b)[p..p + 3] == a[p..p + 3]
  {
  }

  lemma {:induction false} DataIsSomething(cs: seq<Written>)
    requires AreWritten(cs) && cs != []
    ensures DataOf(cs) != []
  {
    assert IsWritten(cs[0]);
    WrittenIsNotEmpty(cs[0]);
  }

  /** Every chunk is whole characters, and has no extension. */
  ghost predicate ArePlain(cs: seq<Written>) {
    forall i | 0 <= i < |cs| :: cs[i].extension == [] && IsText(cs[i].data)
  }

  lemma PlainFirst(cs: seq<Written>)
    requires cs != []
    ensures ArePlain(cs) <==> cs[0].extension == [] && IsText(cs[0].data) && ArePlain(cs[1..])
  {
    hide IsText;
    if cs[0].extension == [] && IsText(cs[0].data) && ArePlain(cs[1..]) {
      forall i | 0 < i < |cs| ensures cs[i] == cs[1..][i - 1] {
      }
    }
  }

  /** A whole body gives its chunks' data back exactly when every chunk is whole characters and has no extension. */
  lemma {:induction false} DecodeInvertsEncode(cs: seq<Written>, zeros: Bytes, extension: Bytes, trailer: Bytes)
    requires AreWritten(cs) && IsLast(zeros, extension)
    ensures Decode(Lossy(Body(cs, zeros + extension + [CR, LF] + trailer))) == Text(DataOf(cs)) <==> ArePlain(cs)
  {
    hide NextChunk, DropLineEnds, IsWritten, IsText, Lossy, Taken, Prepended, ArePlain;
    var last := zeros + extension + [CR, LF] + trailer;
    var body := Body(cs, last);
    assert body[..|body|] == body;
    if cs == [] {
      LastGivesNothing(zeros, extension, trailer, |body|);
      NoneIsPlain();
    } else {
      var c, rest := cs[0], Body(cs[1..], last);
      assert IsWritten(c);
      DataIsSomething(cs);
      PlainFirst(cs);
      FirstLine(c, rest, |body|);
      if c.extension == [] {
        var tail := c.data + [CR, LF] + rest;
        assert |body| - |Line(c)| - 2 == |tail| && tail[..|tail|] == tail;
        DecodeTaken(c, rest, body);
        if IsText(c.data) {
          BodyStartsWithDigit(cs[1..], last);
          WrittenIsNotEmpty(c);
          WholeDataIsTaken(c.data, rest, |tail|);
          DropBetween(rest, |[CR, LF] + rest|);
          assert rest[..|rest|] == rest;
          DecodeInvertsEncode(cs[1..], zeros, extension, trailer);
          PrependedIs(c.data, Decode(Lossy(rest)), DataOf(cs[1..]));
        } else {
          var next := Taken(|c.data|, Lossy(tail));
          FaultIsNotTaken(c.data, rest, if next.Chunk? then Decode(DropLineEnds(next.rest)) else Panics, DataOf(cs[1..]));
        }
      }
    }
  }

  lemma NoneIsPlain()
    ensures ArePlain([])
  {
  }

  lemma DecodeTaken(c: Written, rest: Bytes, body: Bytes)
    requires NextChunk(Lossy(body)) == Taken(|c.data|, Lossy(c.data + [CR, LF] + rest))
    ensures var next := Taken(|c.data|, Lossy(c.data + [CR, LF] + rest));
            Decode(Lossy(body)) == match next
                                   case End => Text([])
                                   case Broken => Panics
                                   case Chunk(data, after) => Prepended(data, Decode(DropLineEnds(after)))
  {
    hide Taken, Lossy, NextChunk;
  }

  // ----- inputs for which it fails

  /** One chunk of one byte, whose line holds an extension, gives nothing. */
  lemma ExtensionIsLost() returns (c: Written)
    ensures IsWritten(c) && IsText(c.data) && c.data == [97]
    ensures Decode(Lossy(Body([c], [ZERO] + [] + [CR, LF] + []))) != Text([97])
  {
    c := Written([49], [SEMICOLON, 120], [97]);
    AsciiIsText(c.extension);
    assert HexValue([49]) == 1;
    assert !ArePlain([c]) by {
      assert [c][0].extension != [];
    }
    hide Decode, Lossy, Body, IsText;
    DecodeInvertsEncode([c], [ZERO], [], []);
    DataOfOne(c);
  }

  lemma DataOfOne(c: Written)
    ensures DataOf([c]) == c.data
  {
    assert c.data + [] == c.data;
  }

  /** One chunk of one character of two bytes, received up to the first of them, panics. */
  lemma CutCharacterPanics() returns (c: Written, n: nat)
    ensures IsWritten(c) && IsText(c.data) && n <= |Body([c], [ZERO] + [] + [CR, LF] + [])|
    ensures Decode(Lossy(Body([c], [ZERO] + [] + [CR, LF] + [])[..n])) == Panics
  {
    c := Written([50], [], [195, 169]);
    n := |Line(c)| + 2 + 1;
    assert HexValue([50]) == 2;
    assert Matched(c.data, 2) == 2 && c.data[2..] == [];
    assert Start(c.data, 1) == 0 && FromCut([c], n) == 2;
    hide Decode, Lossy, IsText;
    DecodesWhatIsGiven([c], [ZERO], [], [], n);
  }
}
