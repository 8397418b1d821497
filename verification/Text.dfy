/** Splitting, joining and decimal numerals. */
module Text {
  import opened Options

  /** str.split(c): always at least one part. */
  function Split(s: string, c: char): (parts: seq<string>)
    ensures |parts| > 0
  {
    if s == [] then [""]
    else
      var rest := Split(s[1..], c);
      if s[0] == c then [""] + rest else [[s[0]] + rest[0]] + rest[1..]
  }

  /** c.join(parts) */
  function Join(parts: seq<string>, c: char): string {
    if parts == [] then "" else if |parts| == 1 then parts[0] else parts[0] + [c] + Join(parts[1..], c)
  }

  lemma {:induction false} SplitPlain(s: string, c: char)
    requires c !in s
    ensures Split(s, c) == [s]
  {
    if s != [] {
      SplitPlain(s[1..], c);
      assert s == [s[0]] + s[1..];
    }
  }

  lemma {:induction false} SplitFirst(s: string, c: char, t: string)
    requires c !in s
    ensures Split(s + [c] + t, c) == [s] + Split(t, c)
  {
    var u := s + [c] + t;
    if s == [] {
      assert u[1..] == t;
    } else {
      assert u[1..] == s[1..] + [c] + t;
      SplitFirst(s[1..], c, t);
      assert s == [s[0]] + s[1..];
    }
  }

  /** Splitting undoes joining when no part contains the separator. */
  lemma {:induction false} SplitJoin(parts: seq<string>, c: char)
    requires parts != [] && forall i | 0 <= i < |parts| :: c !in parts[i]
    ensures Split(Join(parts, c), c) == parts
  {
    if |parts| == 1 {
      SplitPlain(parts[0], c);
    } else {
      SplitJoin(parts[1..], c);
      SplitFirst(parts[0], c, Join(parts[1..], c));
      assert parts == [parts[0]] + parts[1..];
    }
  }

  lemma {:induction false} SplitCount(s: string, c: char)
    ensures |Split(s, c)| == 1 + multiset(s)[c]
  {
    if s != [] {
      SplitCount(s[1..], c);
      assert s == [s[0]] + s[1..];
    }
  }

  lemma {:induction false} SplitParts(s: string, c: char)
    ensures forall i | 0 <= i < |Split(s, c)| :: c !in Split(s, c)[i]
  {
    if s != [] {
      SplitParts(s[1..], c);
    }
  }

  lemma {:induction false} SplitJoined(s: string, c: char)
    ensures Join(Split(s, c), c) == s
  {
    if s != [] {
      var rest := Split(s[1..], c);
      SplitJoined(s[1..], c);
      assert s == [s[0]] + s[1..];
      if s[0] == c {
        assert ([""] + rest)[1..] == rest;
      } else {
        JoinLonger(s[0], rest, c);
      }
    }
  }

  /** Splitting cuts at every separator and nowhere else. */
  lemma JoinSplit(s: string, c: char)
    ensures Join(Split(s, c), c) == s && |Split(s, c)| == 1 + multiset(s)[c]
    ensures forall i | 0 <= i < |Split(s, c)| :: c !in Split(s, c)[i]
  {
    SplitCount(s, c);
    SplitParts(s, c);
    SplitJoined(s, c);
  }

  lemma JoinLonger(x: char, parts: seq<string>, c: char)
    requires parts != []
    ensures Join([[x] + parts[0]] + parts[1..], c) == [x] + Join(parts, c)
  {
    var longer := [[x] + parts[0]] + parts[1..];
    assert longer[1..] == parts[1..];
    if |parts| > 1 {
      assert [x] + parts[0] + [c] + Join(parts[1..], c) == [x] + (parts[0] + [c] + Join(parts[1..], c));
    }
  }

  lemma {:induction false} JoinChars(parts: seq<string>, c: char, d: char)
    requires d != c && forall i | 0 <= i < |parts| :: d !in parts[i]
    ensures d !in Join(parts, c)
  {
    if |parts| > 1 {
      JoinChars(parts[1..], c, d);
    }
  }

  // ---- Decimal numerals ----

  predicate IsDigit(c: char) {
    '0' <= c <= '9'
  }

  function Digit(n: nat): char
    requires n < 10
  {
    '0' + n as char
  }

  function DigitValue(c: char): nat
    requires IsDigit(c)
  {
    (c - '0') as nat
  }

  predicate AllDigits(s: string) {
    forall i | 0 <= i < |s| :: IsDigit(s[i])
  }

  /** '%d' % n */
  function Decimal(n: nat): (s: string)
    ensures |s| > 0 && AllDigits(s)
  {
    if n < 10 then [Digit(n)] else Decimal(n / 10) + [Digit(n % 10)]
  }

  function Numeral(s: string): nat
    requires AllDigits(s)
  {
    if s == [] then 0 else 10 * Numeral(s[..|s| - 1]) + DigitValue(s[|s| - 1])
  }

  /** int(s) for an unsigned decimal numeral; None stands for the ValueError. */
  function ParseNat(s: string): Option<nat> {
    if s != [] && AllDigits(s) then Some(Numeral(s)) else None
  }

  lemma {:induction false} ParseDecimal(n: nat)
    ensures ParseNat(Decimal(n)) == Some(n)
  {
    if n < 10 {
      var s := Decimal(n);
      assert s == [Digit(n)] && s[..0] == "" && Numeral(s) == 10 * Numeral(s[..0]) + DigitValue(s[0]);
    } else {
      ParseDecimal(n / 10);
      var s := Decimal(n);
      assert s[..|s| - 1] == Decimal(n / 10);
    }
  }

  /** Numerals have no leading zeros. */
  lemma {:induction false} DecimalLeading(n: nat)
    ensures Decimal(n)[0] == '0' <==> n == 0
  {
    if n >= 10 {
      DecimalLeading(n / 10);
    }
  }

  lemma DecimalSample()
    ensures Decimal(35652) == "35652"
  {
    assert Decimal(3) == "3";
    assert Decimal(35) == "35";
    assert Decimal(356) == "356";
    assert Decimal(3565) == "3565";
  }

  /** A numeral contains no character that is not a digit. */
  lemma DecimalChars(n: nat, c: char)
    requires !IsDigit(c)
    ensures c !in Decimal(n)
  {
  }

  // ---- Stripping ----

  predicate IsSpace(c: char) {
    c == ' ' || c == '\t' || c == '\n' || c == '\r' || c == '\U{00000b}' || c == '\U{00000c}'
  }

  function StripLeft(s: string): string {
    if s != [] && IsSpace(s[0]) then StripLeft(s[1..]) else s
  }

  function StripRight(s: string): string {
    if s != [] && IsSpace(s[|s| - 1]) then StripRight(s[..|s| - 1]) else s
  }

  function Strip(s: string): string {
    StripRight(StripLeft(s))
  }

  /** A line whose text neither begins nor ends with a space loses only its newline. */
  lemma StripLine(s: string)
    requires s != [] && !IsSpace(s[0]) && !IsSpace(s[|s| - 1])
    ensures Strip(s + "\n") == s && Strip(s) == s
  {
    var t := s + "\n";
    assert StripLeft(t) == t;
    assert t[|t| - 1] == '\n' && t[..|t| - 1] == s;
    assert StripRight(t) == StripRight(s) == s;
  }

  predicate Blank(s: string) {
    forall i | 0 <= i < |s| :: IsSpace(s[i])
  }

  lemma {:induction false} StripLeftShape(s: string) returns (a: string)
    ensures s == a + StripLeft(s) && Blank(a)
    ensures StripLeft(s) != "" ==> !IsSpace(StripLeft(s)[0])
  {
    if s != [] && IsSpace(s[0]) {
      a := StripLeftShape(s[1..]);
      a := [s[0]] + a;
    } else {
      a := "";
    }
  }

  lemma {:induction false} StripRightShape(s: string) returns (b: string)
    ensures s == StripRight(s) + b && Blank(b)
    ensures StripRight(s) != "" ==> !IsSpace(StripRight(s)[|StripRight(s)| - 1])
  {
    if s != [] && IsSpace(s[|s| - 1]) {
      b := StripRightShape(s[..|s| - 1]);
      b := b + [s[|s| - 1]];
    } else {
      b := "";
    }
  }

  /** Stripping removes all blanks at both ends and nothing else. */
  lemma StripShape(s: string) returns (a: string, b: string)
    ensures s == a + Strip(s) + b && Blank(a) && Blank(b)
    ensures Strip(s) != "" ==> !IsSpace(Strip(s)[0]) && !IsSpace(Strip(s)[|Strip(s)| - 1])
  {
    a := StripLeftShape(s);
    b := StripRightShape(StripLeft(s));
  }

  lemma {:induction false} StripLeftBlank(a: string, s: string)
    requires Blank(a)
    ensures StripLeft(a + s) == StripLeft(s)
  {
    if a == "" {
      assert a + s == s;
    } else {
      assert (a + s)[1..] == a[1..] + s;
      StripLeftBlank(a[1..], s);
    }
  }

  lemma {:induction false} StripRightBlank(s: string, b: string)
    requires Blank(b)
    ensures StripRight(s + b) == StripRight(s)
  {
    if b == "" {
      assert s + b == s;
    } else {
      var n := |b| - 1;
      assert (s + b)[..|s| + n] == s + b[..n];
      StripRightBlank(s, b[..n]);
    }
  }

  /** Blanks around a text do not change what stripping leaves. */
  lemma StripAround(a: string, s: string, b: string)
    requires Blank(a) && Blank(b)
    ensures Strip(a + s + b) == Strip(s)
  {
    assert a + s + b == a + (s + b);
    StripLeftBlank(a, s + b);
    var c := StripLeftShape(s);
    StripLeftBlank(c, StripLeft(s) + b);
    assert s + b == c + (StripLeft(s) + b);
    if StripLeft(s) == "" {
      StripLeftBlank(b, "");
      assert b + "" == b && "" + b == b;
    }
    StripRightBlank(StripLeft(s), b);
  }
}
