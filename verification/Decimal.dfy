/** printf's %d and atoi. */
module Decimal {
  function Digit(d: nat): (c: char)
    requires d < 10
    ensures '0' <= c <= '9'
  {
    ('0' as int + d) as char
  }

  function DecNat(n: nat): (s: string)
    ensures s != [] && forall c | c in s :: '0' <= c <= '9'
  {
    if n < 10 then [Digit(n)] else DecNat(n / 10) + [Digit(n % 10)]
  }

  /** "%d" and "%ld". */
  function Dec(n: int): (s: string)
    ensures s != [] && forall c | c in s :: c == '-' || '0' <= c <= '9'
  {
    if n < 0 then "-" + DecNat(-n) else DecNat(n)
  }

  predicate IsDigit(c: char) {
    '0' <= c <= '9'
  }

  predicate IsSpace(c: char) {
    c == ' ' || 9 as char <= c <= 13 as char
  }

  /** The digits at the front of `s`, read after `acc`. */
  function ReadDigits(s: string, acc: nat): nat {
    if s == [] || !IsDigit(s[0]) then acc
    else ReadDigits(s[1..], 10 * acc + (s[0] as int - '0' as int))
  }

  /** atoi and atoll: optional blanks, an optional sign, then digits. */
  function Atoi(s: string): int {
    if s == [] then 0
    else if IsSpace(s[0]) then Atoi(s[1..])
    else if s[0] == '-' then 0 - ReadDigits(s[1..], 0)
    else if s[0] == '+' then ReadDigits(s[1..], 0)
    else ReadDigits(s, 0)
  }

  lemma {:induction false} ReadDigitsAppend(s: string, d: nat, acc: nat)
    requires forall c | c in s :: IsDigit(c)
    requires d < 10
    ensures ReadDigits(s + [Digit(d)], acc) == 10 * ReadDigits(s, acc) + d
    decreases |s|
  {
    if s == [] {
      assert (s + [Digit(d)])[1..] == [];
    } else {
      assert IsDigit(s[0]);
      assert (s + [Digit(d)])[1..] == s[1..] + [Digit(d)];
      ReadDigitsAppend(s[1..], d, 10 * acc + (s[0] as int - '0' as int));
    }
  }

  lemma {:induction false} ReadDecNat(n: nat)
    ensures ReadDigits(DecNat(n), 0) == n
  {
    if n < 10 {
      assert [Digit(n)][1..] == [];
    } else {
      ReadDecNat(n / 10);
      ReadDigitsAppend(DecNat(n / 10), n % 10, 0);
    }
  }

  /** atoi undoes %d for every integer. */
  lemma AtoiDec(n: int)
    ensures Atoi(Dec(n)) == n
  {
    if n < 0 {
      ReadDecNat(-n);
      assert Dec(n)[1..] == DecNat(-n);
    } else {
      ReadDecNat(n);
      assert DecNat(n)[0] in DecNat(n);
    }
  }

  /** A path and a number printed as "%s.%d" can be told apart: no number holds a dot. */
  lemma DottedInjective(p: string, m: int, q: string, n: int)
    requires p + "." + Dec(m) == q + "." + Dec(n)
    ensures p == q && m == n
  {
    if |p| <= |q| { DottedLengths(p, m, q, n); } else { DottedLengths(q, n, p, m); }
  }

  lemma DottedLengths(p: string, m: int, q: string, n: int)
    requires |p| <= |q| && p + "." + Dec(m) == q + "." + Dec(n)
    ensures p == q && m == n
  {
    var s, t := p + "." + Dec(m), q + "." + Dec(n);
    assert t[|q|] == '.';
    forall k | |p| < k < |s|
      ensures s[k] != '.'
    {
      assert s[k] == Dec(m)[k - |p| - 1] && Dec(m)[k - |p| - 1] in Dec(m);
    }
    assert p == s[..|p|] && q == t[..|q|];
    assert Dec(m) == s[|p| + 1..] && Dec(n) == t[|q| + 1..];
    AtoiDec(m);
    AtoiDec(n);
  }

  lemma {:induction false} NoLeadingZero(n: nat)
    ensures n > 0 ==> DecNat(n)[0] != '0'
  {
    if n >= 10 {
      NoLeadingZero(n / 10);
    }
  }

  /** The shortest text: a sign for negative numbers only, and no leading zero but that of zero itself. */
  lemma DecShortest(n: int)
    ensures n == 0 ==> Dec(n) == "0"
    ensures n > 0 ==> (forall c | c in Dec(n) :: IsDigit(c)) && Dec(n)[0] != '0'
    ensures n < 0 ==> Dec(n) == "-" + Dec(-n)
  {
    if n > 0 {
      NoLeadingZero(n);
    }
  }

  /** Blanks and a plus sign before the digits make no difference, nor does what follows them. */
  lemma {:induction false} AtoiSkips(blanks: string, n: nat, rest: string)
    requires (forall c | c in blanks :: IsSpace(c)) && (rest != "" ==> !IsDigit(rest[0]))
    ensures Atoi(blanks + "+" + Dec(n) + rest) == n && Atoi(blanks + Dec(n) + rest) == n
    decreases |blanks|
  {
    if blanks == "" {
      ReadDecNat(n);
      ReadDigitsStop(Dec(n), rest, 0);
      assert ("" + "+" + Dec(n) + rest)[1..] == Dec(n) + rest;
      assert "" + Dec(n) + rest == Dec(n) + rest && (Dec(n) + rest)[0] == Dec(n)[0] && Dec(n)[0] in Dec(n);
    } else {
      AtoiSkips(blanks[1..], n, rest);
      assert (blanks + "+" + Dec(n) + rest)[1..] == blanks[1..] + "+" + Dec(n) + rest;
      assert (blanks + Dec(n) + rest)[1..] == blanks[1..] + Dec(n) + rest;
    }
  }

  lemma {:induction false} ReadDigitsStop(s: string, rest: string, acc: nat)
    requires rest != "" ==> !IsDigit(rest[0])
    ensures ReadDigits(s + rest, acc) == ReadDigits(s, acc)
    decreases |s|
  {
    if s == "" {
      assert s + rest == rest;
    } else if IsDigit(s[0]) {
      assert (s + rest)[1..] == s[1..] + rest;
      ReadDigitsStop(s[1..], rest, 10 * acc + (s[0] as int - '0' as int));
    }
  }
}
