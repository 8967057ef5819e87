/** Joining, splitting and numbers in text. */
module Texts {

  // ----- joining and splitting at one character

  function Join(parts: seq<string>, sep: char): string {
    if parts == [] then ""
    else if |parts| == 1 then parts[0]
    else Join(parts[..|parts| - 1], sep) + [sep] + parts[|parts| - 1]
  }

  ghost predicate Lacks(s: string, c: char) {
    forall i | 0 <= i < |s| :: s[i] != c
  }

  ghost predicate AllLack(parts: seq<string>, c: char) {
    forall i | 0 <= i < |parts| :: Lacks(parts[i], c)
  }

  lemma JoinLast(front: seq<string>, last: string, sep: char)
    ensures Join(front + [last], sep) == if front == [] then last else Join(front, sep) + [sep] + last
  {
    assert (front + [last])[..|front|] == front;
  }

  lemma Regroup(a: string, b: string, c: string)
    ensures a + (b + c) == a + b + c
  {
  }

  /** A character more on the last part is a character more on the whole. */
  lemma JoinExtended(front: seq<string>, last: string, c: char, sep: char)
    ensures Join(front + [last + [c]], sep) == Join(front + [last], sep) + [c]
  {
    hide Join;
    JoinLast(front, last, sep);
    JoinLast(front, last + [c], sep);
    if front != [] {
      Regroup(Join(front, sep) + [sep], last, [c]);
    }
  }

  lemma JoinOneMore(parts: seq<string>, part: string, sep: char)
    requires parts != []
    ensures Join(parts + [part], sep) == Join(parts, sep) + [sep] + part
  {
    assert (parts + [part])[..|parts|] == parts;
  }

  lemma {:induction false} JoinInTwo(parts: seq<string>, k: nat, sep: char)
    requires 0 < k < |parts|
    ensures Join(parts, sep) == Join(parts[..k], sep) + [sep] + Join(parts[k..], sep)
  {
    if k < |parts| - 1 {
      var init := parts[..|parts| - 1];
      JoinInTwo(init, k, sep);
      assert init[..k] == parts[..k];
      assert parts[k..][..|parts[k..]| - 1] == init[k..];
    } else {
      assert parts[k..] == [parts[k]];
    }
  }

  /** The separators of joined parts stand where a prefix of the parts ends, and nowhere else. */
  lemma {:induction false} SeparatorsAre(parts: seq<string>, sep: char, p: nat) returns (k: nat)
    requires AllLack(parts, sep) && p < |Join(parts, sep)| && Join(parts, sep)[p] == sep
    ensures 0 < k < |parts| && p == |Join(parts[..k], sep)|
  {
    var init, last := parts[..|parts| - 1], parts[|parts| - 1];
    assert Lacks(last, sep);
    assert |parts| > 1;
    if p < |Join(init, sep)| {
      k := SeparatorsAre(init, sep, p);
      assert init[..k] == parts[..k];
    } else {
      k := |parts| - 1;
      assert forall x | |Join(init, sep)| < x < |Join(parts, sep)| ::
          Join(parts, sep)[x] == last[x - |Join(init, sep)| - 1];
    }
  }

  lemma {:induction false} LongerJoin(parts: seq<string>, k: nat, m: nat, sep: char)
    requires 0 < k < m <= |parts|
    ensures |Join(parts[..k], sep)| < |Join(parts[..m], sep)|
    decreases m
  {
    assert parts[..m][..m - 1] == parts[..m - 1];
    if k < m - 1 {
      LongerJoin(parts, k, m - 1, sep);
    }
  }

  /** One more character: a separator starts a new part. */
  function OneMore(parts: seq<string>, c: char, sep: char): (more: seq<string>)
    requires parts != []
    ensures more != []
  {
    if c == sep then parts + [""] else parts[..|parts| - 1] + [parts[|parts| - 1] + [c]]
  }

  function Split(s: string, sep: char): (parts: seq<string>)
    ensures parts != []
  {
    if s == "" then [""]
    else
      OneMore(Split(s[..|s| - 1], sep), s[|s| - 1], sep)
  }

  lemma {:induction false} SplitAppend(s: string, part: string, sep: char)
    requires Lacks(part, sep)
    ensures Split(s + part, sep) ==
            Split(s, sep)[..|Split(s, sep)| - 1] + [Split(s, sep)[|Split(s, sep)| - 1] + part]
  {
    var parts := Split(s, sep);
    if part == "" {
      assert s + part == s;
      assert parts[|parts| - 1] + part == parts[|parts| - 1];
      assert parts == parts[..|parts| - 1] + [parts[|parts| - 1] + part];
    } else {
      var init := part[..|part| - 1];
      SplitAppend(s, init, sep);
      assert (s + part)[..|s + part| - 1] == s + init;
      assert parts[|parts| - 1] + init + [part[|part| - 1]] == parts[|parts| - 1] + part;
    }
  }

  /** Splitting undoes joining. */
  lemma {:induction false} SplitJoined(parts: seq<string>, sep: char)
    requires parts != [] && AllLack(parts, sep)
    ensures Split(Join(parts, sep), sep) == parts
  {
    var n := |parts| - 1;
    assert Lacks(parts[n], sep);
    if n == 0 {
      assert "" + parts[0] == parts[0];
      SplitAppend("", parts[0], sep);
      assert Split("", sep)[0] + parts[0] == parts[0];
    } else {
      var head := Join(parts[..n], sep);
      SplitJoined(parts[..n], sep);
      assert (head + [sep])[..|head|] == head;
      SplitAppend(head + [sep], parts[n], sep);
      assert (parts[..n] + [""])[..n] == parts[..n];
      assert "" + parts[n] == parts[n];
      assert parts[..n] + [parts[n]] == parts;
    }
  }

  /** Joining undoes splitting. */
  lemma {:induction false} JoinSplit(s: string, sep: char)
    ensures Join(Split(s, sep), sep) == s && AllLack(Split(s, sep), sep)
  {
    if s != "" {
      var init, c := s[..|s| - 1], s[|s| - 1];
      JoinSplit(init, sep);
      hide Join, OneMore;
      SplitOneMore(Split(init, sep), c, sep);
      assert Split(s, sep) == OneMore(Split(init, sep), c, sep);
      assert init + [c] == s;
    }
  }

  lemma SplitOneMore(parts: seq<string>, c: char, sep: char)
    requires parts != [] && AllLack(parts, sep)
    ensures Join(OneMore(parts, c, sep), sep) == Join(parts, sep) + [c]
    ensures AllLack(OneMore(parts, c, sep), sep)
  {
    hide Join;
    var front, last := parts[..|parts| - 1], parts[|parts| - 1];
    assert front + [last] == parts;
    assert Lacks(last, sep);
    if c == sep {
      JoinLast(parts, "", sep);
      assert Join(parts, sep) + [sep] + "" == Join(parts, sep) + [sep];
    } else {
      JoinExtended(front, last, c, sep);
    }
  }

  // ----- decimal numbers

  predicate IsDigit(c: char) {
    '0' <= c <= '9'
  }

  predicate AreDigits(s: string) {
    forall i | 0 <= i < |s| :: IsDigit(s[i])
  }

  function Digit(n: nat): (c: char)
    requires n < 10
    ensures IsDigit(c) && DigitValue(c) == n
  {
    "0123456789"[n]
  }

  function DigitValue(c: char): nat
    requires IsDigit(c)
  {
    c as int - '0' as int
  }

  /** `n` as Rust prints it. */
  function Decimal(n: nat): (s: string)
    ensures s != "" && AreDigits(s)
  {
    if n < 10 then [Digit(n)] else Decimal(n / 10) + [Digit(n % 10)]
  }

  function Value(s: string): nat
    requires AreDigits(s)
  {
    if s == "" then 0 else Value(s[..|s| - 1]) * 10 + DigitValue(s[|s| - 1])
  }

  /** Reading a printed number gives it back. */
  lemma {:induction false} ValueOfDecimal(n: nat)
    ensures Value(Decimal(n)) == n
  {
    if n >= 10 {
      ValueOfDecimal(n / 10);
      assert Decimal(n)[..|Decimal(n)| - 1] == Decimal(n / 10);
    } else {
      assert Decimal(n)[..0] == "";
    }
  }

  /** What `str::parse::<u64>` reads: digits, one `+` before them allowed, of a number that fits. */
  predicate IsU64(s: string) {
    var digits := if s != "" && s[0] == '+' then s[1..] else s;
    digits != "" && AreDigits(digits) && Value(digits) < 0x1_0000_0000_0000_0000
  }
}
