/** What the chunked-body decoder reads, byte by byte: its sizes, its lines, and the characters of the text it is given. */
module ChunkedBodyExactly {
  import opened Wrappers
  import opened ChunkedBody

  // ----- sizes

  const SMALL := "0123456789abcdef"
  const CAPITAL := "0123456789ABCDEF"

  /** The hexadecimal digits, and what each counts for. */
  lemma HexDigitsExactly(b: Byte)
    ensures IsHexDigit(b) <==> exists n :: 0 <= n < 16 && (b == SMALL[n] as int || b == CAPITAL[n] as int)
    ensures forall n | 0 <= n < 16 && (b == SMALL[n] as int || b == CAPITAL[n] as int) :: HexDigitValue(b) == n
  {
    if IsHexDigit(b) {
      var n := HexDigitValue(b);
      assert b == SMALL[n] as int || b == CAPITAL[n] as int;
    }
  }

  function SixteenTo(n: nat): nat {
    if n == 0 then 1 else 16 * SixteenTo(n - 1)
  }

  lemma OnePlaceMore(x: nat, t: nat, y: nat, d: nat)
    ensures (x * t + y) * 16 + d == x * (16 * t) + (y * 16 + d)
  {
  }

  lemma HexOneMore(s: Bytes, b: Byte)
    requires AreHexDigits(s) && IsHexDigit(b)
    ensures AreHexDigits(s + [b]) && HexValue(s + [b]) == HexValue(s) * 16 + HexDigitValue(b)
  {
    assert (s + [b])[..|s|] == s;
  }

  /** What digits count for is sixteen times as much one place to the left. */
  lemma {:induction false} HexByPlaces(a: Bytes, b: Bytes)
    requires AreHexDigits(a) && AreHexDigits(b)
    ensures AreHexDigits(a + b) && HexValue(a + b) == HexValue(a) * SixteenTo(|b|) + HexValue(b)
    ensures |b| == 1 ==> HexValue(b) == HexDigitValue(b[0])
  {
    if b == [] {
      assert a + b == a;
    } else {
      var init, c := b[..|b| - 1], b[|b| - 1];
      HexByPlaces(a, init);
      OnePlaceMore(HexValue(a), SixteenTo(|init|), HexValue(init), HexDigitValue(c));
      HexOneMore(a + init, c);
      HexOneMore(init, c);
      assert SixteenTo(|b|) == 16 * SixteenTo(|init|);
      assert |b| == 1 ==> init == [] && HexValue(init) == 0;
      hide HexValue, SixteenTo, HexDigitValue;
      assert init + [c] == b && (a + init) + [c] == a + b;
    }
  }

  /** White space: tab, line feed, line tabulation, form feed, carriage return and space. */
  ghost predicate AreSpaces(s: Bytes) {
    forall i | 0 <= i < |s| :: s[i] == 9 || s[i] == 10 || s[i] == 11 || s[i] == 12 || s[i] == 13 || s[i] == 32
  }

  lemma {:induction false} TrimStartIs(s: Bytes) returns (front: Bytes)
    ensures AreSpaces(front) && s == front + TrimStart(s)
    ensures TrimStart(s) != [] ==> !IsSpace(TrimStart(s)[0])
  {
    front := [];
    if s != [] && IsSpace(s[0]) {
      var more := TrimStartIs(s[1..]);
      front := [s[0]] + more;
    }
  }

  lemma {:induction false} TrimEndIs(s: Bytes) returns (back: Bytes)
    ensures AreSpaces(back) && s == TrimEnd(s) + back
    ensures TrimEnd(s) != [] ==> !IsSpace(TrimEnd(s)[|TrimEnd(s)| - 1])
  {
    back := [];
    if s != [] && IsSpace(s[|s| - 1]) {
      var more := TrimEndIs(s[..|s| - 1]);
      back := more + [s[|s| - 1]];
    }
  }

  lemma {:induction false} TrimStartDrops(front: Bytes, s: Bytes)
    requires AreSpaces(front) && s != [] && !IsSpace(s[0])
    ensures TrimStart(front + s) == s
  {
    if front == [] {
      assert front + s == s;
    } else {
      assert (front + s)[1..] == front[1..] + s;
      TrimStartDrops(front[1..], s);
    }
  }

  lemma {:induction false} TrimEndDrops(s: Bytes, back: Bytes)
    requires AreSpaces(back) && s != [] && !IsSpace(s[|s| - 1])
    ensures TrimEnd(s + back) == s
  {
    if back == [] {
      assert s + back == s;
    } else {
      assert (s + back)[..|s + back| - 1] == s + back[..|back| - 1];
      TrimEndDrops(s, back[..|back| - 1]);
    }
  }

  /** A size as it may be written: digits of a number that fits in 64 bits, a `+` before them allowed. */
  ghost predicate IsSize(s: Bytes, n: nat) {
    exists sign, digits :: (sign == [] || sign == [43]) && digits != [] && AreHexDigits(digits)
                           && s == sign + digits && HexValue(digits) == n && n < 18446744073709551616
  }

  lemma ParsedIsSize(s: Bytes, n: nat)
    ensures ParseSize(s) == Some(n) <==> IsSize(s, n)
  {
    hide HexValue;
    if ParseSize(s) == Some(n) {
      if s[0] == PLUS {
        assert s == [43] + s[1..];
      } else {
        assert s == [] + s;
      }
    }
    if sign, digits :| (sign == [] || sign == [43]) && digits != [] && AreHexDigits(digits)
                       && s == sign + digits && HexValue(digits) == n && n < 18446744073709551616 {
      if sign == [43] {
        assert s[1..] == digits;
      } else {
        assert s == digits && IsHexDigit(digits[0]);
      }
    }
  }

  lemma SizeHasEnds(s: Bytes, n: nat)
    requires IsSize(s, n)
    ensures s != [] && !IsSpace(s[0]) && !IsSpace(s[|s| - 1])
  {
    hide HexValue;
    var sign, digits :| (sign == [] || sign == [43]) && digits != [] && AreHexDigits(digits)
                        && s == sign + digits && HexValue(digits) == n && n < 18446744073709551616;
    assert IsHexDigit(digits[0]) && IsHexDigit(digits[|digits| - 1]);
    assert s[|s| - 1] == digits[|digits| - 1] && s[0] == if sign == [] then digits[0] else 43;
  }

  /** A line gives a size exactly when it is one with white space around it. */
  lemma SizeExactly(line: Bytes, n: nat)
    ensures ParseSize(Trim(line)) == Some(n) <==>
            exists front, size, back :: AreSpaces(front) && AreSpaces(back) && IsSize(size, n) && line == front + size + back
  {
    hide IsSize, ParseSize;
    ParsedIsSize(Trim(line), n);
    var front := TrimStartIs(line);
    var back := TrimEndIs(TrimStart(line));
    assert line == front + Trim(line) + back;
    hide TrimStart, TrimEnd;
    if before, size, after :| AreSpaces(before) && AreSpaces(after) && IsSize(size, n) && line == before + size + after {
      SizeHasEnds(size, n);
      assert line == before + (size + after);
      TrimStartDrops(before, size + after);
      TrimEndDrops(size, after);
    }
  }

  // ----- lines

  /** A line's end is where a carriage return first stands before a line feed. */
  lemma {:induction false} LineEndExactly(s: Bytes)
    ensures var at := FindLineEnd(s);
            if at.Some? then s[at.value] == 13 && s[at.value + 1] == 10
                             && forall i | 0 <= i < at.value :: !(s[i] == 13 && s[i + 1] == 10)
            else forall i | 0 <= i < |s| - 1 :: !(s[i] == 13 && s[i + 1] == 10)
  {
    if |s| >= 2 && !(s[0] == CR && s[1] == LF) {
      LineEndExactly(s[1..]);
      forall i | 0 < i < |s| - 1 ensures s[i] == s[1..][i - 1] && s[i + 1] == s[1..][i] {
      }
    }
  }

  function LineEnds(k: nat): Bytes {
    if k == 0 then [] else [13, 10] + LineEnds(k - 1)
  }

  /** After a chunk's data every line's end that follows is passed over, not one alone. */
  lemma {:induction false} DropLineEndsExactly(s: Bytes) returns (k: nat)
    ensures s == LineEnds(k) + DropLineEnds(s)
    ensures var rest := DropLineEnds(s); |rest| >= 2 ==> !(rest[0] == 13 && rest[1] == 10)
  {
    k := 0;
    if |s| >= 2 && s[0] == CR && s[1] == LF {
      var more := DropLineEndsExactly(s[2..]);
      k := more + 1;
      assert LineEnds(k) == [13, 10] + LineEnds(more) && DropLineEnds(s) == DropLineEnds(s[2..]);
      hide LineEnds, DropLineEnds;
      assert s == [13, 10] + s[2..];
      Regroup([13, 10], LineEnds(more), DropLineEnds(s[2..]));
    } else {
      assert [] + s == s;
    }
  }

  // ----- characters

  /** The code points a text may hold. */
  predicate IsScalar(n: nat) {
    n < 0x110000 && !(0xd800 <= n < 0xe000)
  }

  /** The bytes of a code point (section 3 of RFC 3629). */
  function Utf8(n: nat): Bytes
    requires IsScalar(n)
  {
    if n < 0x80 then [n]
    else if n < 0x800 then [192 + n / 64, 128 + n % 64]
    else if n < 0x10000 then [224 + n / 4096, 128 + n / 64 % 64, 128 + n % 64]
    else [240 + n / 262144, 128 + n / 4096 % 64, 128 + n / 64 % 64, 128 + n % 64]
  }

  /** The bytes are one character, and no more. */
  ghost predicate IsCharacter(s: Bytes) {
    s != [] && Matched(s, 1) == Width(s[0]) == |s|
  }

  lemma FollowAll(s: Bytes)
    requires s != []
    ensures IsCharacter(s) <==> |s| == Width(s[0]) && forall i | 1 <= i < |s| :: Follows(s[0], i, s[i])
  {
    hide Width, Follows;
    MatchedAll(s, 1);
  }

  lemma {:induction false} MatchedAll(s: Bytes, i: nat)
    requires 1 <= i <= |s|
    ensures |s| == Width(s[0]) ==> (Matched(s, i) == |s| <==> forall j | i <= j < |s| :: Follows(s[0], j, s[j]))
    decreases |s| - i
  {
    hide Width, Follows;
    if i < Width(s[0]) && i < |s| && Follows(s[0], i, s[i]) {
      MatchedAll(s, i + 1);
    }
  }

  lemma Utf8IsCharacter(n: nat)
    requires IsScalar(n)
    ensures IsCharacter(Utf8(n))
  {
    FollowAll(Utf8(n));
    hide IsCharacter;
  }

  lemma TwoParts(a: nat, b: nat)
    requires b < 64
    ensures (a * 64 + b) / 64 == a && (a * 64 + b) % 64 == b
  {
  }

  lemma ThreeParts(a: nat, b: nat, c: nat)
    requires b < 64 && c < 64
    ensures var n := a * 4096 + b * 64 + c; n / 4096 == a && n / 64 % 64 == b && n % 64 == c
  {
    TwoParts(a * 64 + b, c);
    TwoParts(a, b);
    var n := a * 4096 + b * 64 + c;
    assert n == (a * 64 + b) * 64 + c && n / 64 == a * 64 + b;
    assert n / 4096 == n / 64 / 64;
  }

  lemma FourParts(a: nat, b: nat, c: nat, d: nat)
    requires b < 64 && c < 64 && d < 64
    ensures var n := a * 262144 + b * 4096 + c * 64 + d;
            n / 262144 == a && n / 4096 % 64 == b && n / 64 % 64 == c && n % 64 == d
  {
    TwoParts(a * 4096 + b * 64 + c, d);
    ThreeParts(a, b, c);
    var n := a * 262144 + b * 4096 + c * 64 + d;
    var m := a * 4096 + b * 64 + c;
    assert n == m * 64 + d && n / 64 == m;
    assert n / 262144 == n / 64 / 4096 && n / 4096 == n / 64 / 64;
  }

  lemma CharacterIsUtf8(s: Bytes) returns (n: nat)
    requires IsCharacter(s)
    ensures IsScalar(n) && s == Utf8(n)
  {
    FollowAll(s);
    hide IsCharacter, Matched;
    var a: nat := s[0];
    if |s| == 1 {
      n := a;
    } else {
      assert Follows(s[0], 1, s[1]);
      var b: nat := s[1];
      b := b - 128;
      if |s| == 2 {
        n := (a - 192) * 64 + b;
        TwoParts(a - 192, b);
      } else {
        assert Follows(s[0], 2, s[2]);
        var c: nat := s[2];
        c := c - 128;
        if |s| == 3 {
          n := (a - 224) * 4096 + b * 64 + c;
          ThreeParts(a - 224, b, c);
        } else {
          assert Follows(s[0], 3, s[3]);
          var d: nat := s[3];
          d := d - 128;
          n := (a - 240) * 262144 + b * 4096 + c * 64 + d;
          FourParts(a - 240, b, c, d);
        }
      }
    }
  }

  /** What replaces broken bytes is the replacement character. */
  lemma ReplacementIsFffd()
    ensures REPLACEMENT == Utf8(0xfffd)
  {
  }

  /** The bytes taken for one character are exactly those of one code point that a text may hold. */
  lemma CharactersExactly(s: Bytes)
    ensures IsCharacter(s) <==> exists n :: IsScalar(n) && s == Utf8(n)
  {
    if IsCharacter(s) {
      var n := CharacterIsUtf8(s);
    }
    if n: nat :| IsScalar(n) && s == Utf8(n) {
      Utf8IsCharacter(n);
    }
  }
}
