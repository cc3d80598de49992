/** The text operations the program relies on: splitting and joining on a separator character,
    and decimal numerals. */
module Text {

  // ---- splitting and joining ----

  /** strings.Split: the pieces of s between occurrences of c; the empty text has one blank piece. */
  function Split(s: string, c: char): (r: seq<string>)
    ensures |r| > 0
    ensures forall i :: 0 <= i < |r| ==> c !in r[i]
  {
    if s == "" then [""]
    else
      var rest := Split(s[1..], c);
      if s[0] == c then [""] + rest else [[s[0]] + rest[0]] + rest[1..]
  }

  /** strings.Join */
  function Join(parts: seq<string>, c: char): string {
    if |parts| == 0 then ""
    else if |parts| == 1 then parts[0]
    else parts[0] + [c] + Join(parts[1..], c)
  }

  predicate FreeOf(parts: seq<string>, c: char) {
    forall i :: 0 <= i < |parts| ==> c !in parts[i]
  }

  /** Joining the pieces of any text gives that text back. */
  lemma {:induction false} JoinSplit(s: string, c: char)
    ensures Join(Split(s, c), c) == s
  {
    if s != "" {
      var rest := Split(s[1..], c);
      JoinSplit(s[1..], c);
      if s[0] == c {
        assert ([""] + rest)[1..] == rest;
      } else {
        var head := [s[0]] + rest[0];
        assert Split(s, c) == [head] + rest[1..];
        if |rest| == 1 {
          assert rest[1..] == [];
        } else {
          assert ([head] + rest[1..])[1..] == rest[1..];
          assert Join(Split(s, c), c) == head + [c] + Join(rest[1..], c);
          assert head + [c] + Join(rest[1..], c) == [s[0]] + (rest[0] + [c] + Join(rest[1..], c));
        }
      }
      assert s == [s[0]] + s[1..];
    }
  }

  /** A piece without the separator splits to itself. */
  lemma {:induction false} SplitPlain(a: string, c: char)
    requires c !in a
    ensures Split(a, c) == [a]
  {
    if a != "" {
      SplitPlain(a[1..], c);
      assert a == [a[0]] + a[1..];
    }
  }

  lemma {:induction false} SplitFirst(a: string, c: char, rest: string)
    requires c !in a
    ensures Split(a + [c] + rest, c) == [a] + Split(rest, c)
  {
    var s := a + [c] + rest;
    if a == "" {
      assert s[1..] == rest;
    } else {
      SplitFirst(a[1..], c, rest);
      assert s[1..] == a[1..] + [c] + rest;
      assert s[0] == a[0];
      assert a == [a[0]] + a[1..];
    }
  }

  lemma {:induction false} SplitLast(front: string, c: char, a: string)
    requires c !in a
    ensures Split(front + [c] + a, c) == Split(front, c) + [a]
  {
    var s := front + [c] + a;
    if front == "" {
      SplitPlain(a, c);
      assert s[1..] == a;
    } else {
      SplitLast(front[1..], c, a);
      assert s[1..] == front[1..] + [c] + a && s[0] == front[0];
    }
  }

  lemma {:induction false} JoinLast(parts: seq<string>, c: char, a: string)
    requires |parts| > 0
    ensures Join(parts + [a], c) == Join(parts, c) + [c] + a
  {
    if |parts| == 1 {
      assert (parts + [a])[1..] == [a];
    } else {
      JoinLast(parts[1..], c, a);
      assert (parts + [a])[1..] == parts[1..] + [a];
    }
  }

  /** A text has more than one piece exactly if it contains the separator. */
  lemma {:induction false} SplitCount(s: string, c: char)
    ensures |Split(s, c)| >= 2 <==> c in s
  {
    if s != "" {
      SplitCount(s[1..], c);
      assert s == [s[0]] + s[1..];
    }
  }

  lemma {:induction false} SplitJoinPlain(parts: seq<string>, c: char)
    requires |parts| > 0 && FreeOf(parts, c)
    ensures Split(Join(parts, c), c) == parts
  {
    if |parts| == 1 {
      SplitPlain(parts[0], c);
    } else {
      SplitJoinPlain(parts[1..], c);
      SplitFirst(parts[0], c, Join(parts[1..], c));
    }
  }

  /** Splitting after joining is the identity on the nonempty lists of separator-free pieces,
      and on no other list. */
  lemma SplitJoin(parts: seq<string>, c: char)
    ensures Split(Join(parts, c), c) == parts <==> |parts| > 0 && FreeOf(parts, c)
    ensures parts == [] ==> Split(Join(parts, c), c) == [""]
  {
    if |parts| > 0 && FreeOf(parts, c) {
      SplitJoinPlain(parts, c);
    }
  }

  // ---- decimal numerals ----

  predicate IsDigit(ch: char) {
    '0' <= ch <= '9'
  }

  predicate AllDigits(s: string) {
    forall i :: 0 <= i < |s| ==> IsDigit(s[i])
  }

  /** A decimal numeral without superfluous leading zeros. */
  predicate Canonical(s: string) {
    s != "" && AllDigits(s) && (|s| > 1 ==> s[0] != '0')
  }

  function DigitChar(d: nat): (ch: char)
    requires d < 10
    ensures IsDigit(ch) && DigitOf(ch) == d && (ch == '0' <==> d == 0)
  {
    ('0' as int + d) as char
  }

  function DigitOf(ch: char): nat
    requires IsDigit(ch)
  {
    ch as int - '0' as int
  }

  /** strconv.Itoa for a natural number. */
  function Itoa(n: nat): (s: string)
    ensures Canonical(s)
    ensures n > 0 ==> s[0] != '0'
  {
    if n < 10 then [DigitChar(n)] else Itoa(n / 10) + [DigitChar(n % 10)]
  }

  /** The number a string of digits denotes; leading zeros are allowed. */
  function Numeral(s: string): nat
    requires AllDigits(s)
  {
    if s == "" then 0 else 10 * Numeral(s[..|s| - 1]) + DigitOf(s[|s| - 1])
  }

  const MAX_INT: int := 0x7fff_ffff_ffff_ffff
  const MIN_INT: int := -0x8000_0000_0000_0000

  /** The value part of strconv.Atoi, whose error result the callers drop: 0 on a syntax error,
      the nearest int on overflow. */
  function Atoi(s: string): (r: int)
    ensures MIN_INT <= r <= MAX_INT
  {
    var signed := s != "" && (s[0] == '+' || s[0] == '-');
    var body := if signed then s[1..] else s;
    if body == "" || !AllDigits(body) then 0
    else
      var magnitude: int := Numeral(body);
      var v := if signed && s[0] == '-' then -magnitude else magnitude;
      if v > MAX_INT then MAX_INT else if v < MIN_INT then MIN_INT else v
  }

  lemma {:induction false} NumeralItoa(n: nat)
    ensures Numeral(Itoa(n)) == n
  {
    if n < 10 {
      assert Itoa(n)[..0] == "";
    } else {
      NumeralItoa(n / 10);
      var s := Itoa(n);
      assert s[..|s| - 1] == Itoa(n / 10);
    }
  }

  lemma {:induction false} ItoaNumeral(s: string)
    requires Canonical(s)
    ensures Itoa(Numeral(s)) == s
  {
    var front, last := s[..|s| - 1], s[|s| - 1];
    assert s == front + [last];
    if front == "" {
      assert Numeral(front) == 0;
    } else {
      ItoaNumeral(front);
      NumeralPositive(front);
      assert Numeral(s) / 10 == Numeral(front) && Numeral(s) % 10 == DigitOf(last);
    }
  }

  lemma {:induction false} NumeralPositive(s: string)
    requires s != "" && AllDigits(s) && s[0] != '0'
    ensures Numeral(s) > 0
  {
    if |s| > 1 {
      NumeralPositive(s[..|s| - 1]);
    }
  }

  lemma ItoaInjective(m: nat, n: nat)
    requires Itoa(m) == Itoa(n)
    ensures m == n
  {
    NumeralItoa(m);
    NumeralItoa(n);
  }

  lemma AtoiItoa(n: nat)
    requires n <= MAX_INT
    ensures Atoi(Itoa(n)) == n
  {
    NumeralItoa(n);
    assert IsDigit(Itoa(n)[0]);
  }

  /** Signs are understood, and on overflow the dropped error leaves the nearest 64-bit integer. */
  lemma AtoiSigned(n: nat, digits: string)
    requires digits == Itoa(n)
    ensures Atoi(digits) == if n <= 0x7fff_ffff_ffff_ffff then n else 0x7fff_ffff_ffff_ffff
    ensures Atoi("+" + digits) == Atoi(digits)
    ensures Atoi("-" + digits) == if n <= 0x8000_0000_0000_0000 then -(n as int) else -0x8000_0000_0000_0000
  {
    NumeralItoa(n);
    assert IsDigit(digits[0]);
    assert ("+" + digits)[1..] == digits && ("-" + digits)[1..] == digits;
  }

  /** On any other character the dropped error leaves 0, as on texts without a digit. */
  lemma AtoiOfOther(s: string, i: nat)
    requires i < |s| && !IsDigit(s[i]) && (i == 0 ==> s[0] != '+' && s[0] != '-')
    ensures Atoi(s) == Atoi("") == Atoi("+") == Atoi("-") == 0
  {
    if i > 0 {
      assert s[1..][i - 1] == s[i];
    }
  }

  /** A separator that is not a digit does not occur in a numeral. */
  lemma DigitsFree(s: string, c: char)
    requires AllDigits(s) && !IsDigit(c)
    ensures c !in s
  {
  }
}
