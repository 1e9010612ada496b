/** The few pieces of the Java standard library the saga workers lean on:
    `Optional`, a `String` reference that may be `null`, `String.split(",")`
    and the decimal rendering of an `int` in string concatenation. */
module Jdk {

  /** `java.util.Optional<T>`: what a repository's `findBy…` query returns. */
  datatype Optional<+T> = Empty | Present(value: T)

  /** A Java `String` reference: either `null` or a character sequence. */
  datatype Text = Null | Str(chars: string)

  /** The position of the first `c` in `s`. */
  function IndexOf(s: string, c: char): (i: nat)
    requires c in s
    ensures i < |s| && s[i] == c && c !in s[..i]
  {
    if s[0] == c then 0 else 1 + IndexOf(s[1..], c)
  }

  /** The pieces of `s` between its commas, every piece kept, empty ones
      included: the text before the first comma, then the pieces of the
      rest. A string with `n` commas has `n + 1` pieces. */
  function Pieces(s: string): (ps: seq<string>)
    ensures |ps| >= 1
    decreases |s|
  {
    if ',' !in s then [s]
    else
      var i := IndexOf(s, ',');
      [s[..i]] + Pieces(s[i + 1..])
  }

  /** The pieces glued back together with a comma between neighbours. */
  function Join(ps: seq<string>): string
  {
    if |ps| == 0 then []
    else if |ps| == 1 then ps[0]
    else ps[0] + [','] + Join(ps[1..])
  }

  /** The longest prefix of `ps` that does not end with an empty piece. */
  function DropTrailingEmpty(ps: seq<string>): (r: seq<string>)
    ensures r <= ps
    ensures r == [] || r[|r| - 1] != []
    ensures forall k :: |r| <= k < |ps| ==> ps[k] == []
  {
    if ps != [] && ps[|ps| - 1] == [] then DropTrailingEmpty(ps[..|ps| - 1])
    else ps
  }

  /** `s.split(",")`: when `s` has no comma the result is `[s]` itself (so
      the empty string gives one empty id); otherwise every piece between
      commas is kept, empty ones in the middle included, and the empty
      pieces at the end are dropped. */
  function Split(s: string): (ps: seq<string>)
    ensures forall p :: p in ps ==> ',' !in p
    ensures ',' !in s ==> ps == [s]
    ensures ',' in s ==> ps <= Pieces(s) && (ps == [] || ps[|ps| - 1] != [])
    ensures ',' in s ==> forall k :: |ps| <= k < |Pieces(s)| ==> Pieces(s)[k] == []
  {
    if ',' !in s then [s]
    else
      PiecesHaveNoComma(s);
      DropTrailingEmpty(Pieces(s))
  }

  /** No piece contains a comma. */
  lemma {:induction false} PiecesHaveNoComma(s: string)
    ensures forall p :: p in Pieces(s) ==> ',' !in p
    decreases |s|
  {
    if ',' in s {
      var i := IndexOf(s, ',');
      PiecesHaveNoComma(s[i + 1..]);
      assert Pieces(s) == [s[..i]] + Pieces(s[i + 1..]);
    }
  }

  /** Joining the pieces of a string gives the string back, so `Pieces`
      loses nothing and `Split` loses only trailing commas. */
  lemma {:induction false} JoinPieces(s: string)
    ensures Join(Pieces(s)) == s
    decreases |s|
  {
    if ',' in s {
      var i := IndexOf(s, ',');
      var rest := Pieces(s[i + 1..]);
      JoinPieces(s[i + 1..]);
      JoinUnfold(s[..i], rest);
      assert s[..i] + [','] + s[i + 1..] == s;
    }
  }

  /** Joining a piece in front of others puts a comma after it. */
  lemma JoinUnfold(p: string, ps: seq<string>)
    requires ps != []
    ensures Join([p] + ps) == p + [','] + Join(ps)
  {
    assert ([p] + ps)[1..] == ps;
  }

  /** The character of a decimal digit. */
  function Digit(d: nat): (c: char)
    requires d < 10
    ensures '0' <= c <= '9'
  {
    "0123456789"[d]
  }

  /** `Integer.toString(n)` for a non-negative `n`: the shortest decimal
      numeral of `n`. */
  function Decimal(n: nat): (s: string)
    ensures 1 <= |s|
    ensures forall i :: 0 <= i < |s| ==> '0' <= s[i] <= '9'
    ensures (n < 10) == (|s| == 1)
    ensures s[0] == '0' ==> n == 0
  {
    if n < 10 then [Digit(n)] else Decimal(n / 10) + [Digit(n % 10)]
  }

  /** The number a string of decimal digits denotes, most significant
      digit first; the empty string denotes 0. */
  function Value(s: string): (v: nat)
    requires forall i :: 0 <= i < |s| ==> '0' <= s[i] <= '9'
  {
    if s == [] then 0
    else 10 * Value(s[..|s| - 1]) + (s[|s| - 1] as int - '0' as int)
  }

  /** `Decimal` renders the number itself: its numeral denotes `n`. */
  lemma {:induction false} DecimalValue(n: nat)
    ensures Value(Decimal(n)) == n
  {
    var s := Decimal(n);
    if n < 10 {
      DigitValue(n);
      assert s[..0] == [];
    } else {
      assert s[..|s| - 1] == Decimal(n / 10);
      DecimalValue(n / 10);
      DigitValue(n % 10);
    }
  }

  /** A digit's character stands for the digit. */
  lemma DigitValue(d: nat)
    requires d < 10
    ensures Digit(d) as int - '0' as int == d
  {
  }

  /** Distinct numbers have distinct numerals. */
  lemma {:induction false} DecimalInjective(a: nat, b: nat)
    requires Decimal(a) == Decimal(b)
    ensures a == b
  {
    var s, t := Decimal(a), Decimal(b);
    if a >= 10 && b >= 10 {
      assert s[..|s| - 1] == Decimal(a / 10);
      assert t[..|t| - 1] == Decimal(b / 10);
      DecimalInjective(a / 10, b / 10);
      assert Digit(a % 10) == s[|s| - 1] == t[|t| - 1] == Digit(b % 10);
      DigitInjective(a % 10, b % 10);
    } else if a < 10 && b < 10 {
      DigitInjective(a, b);
    }
  }

  lemma DigitInjective(a: nat, b: nat)
    requires a < 10 && b < 10 && Digit(a) == Digit(b)
    ensures a == b
  {
  }
}
