/** Decimal rendering of integers, as Python's str() and f"{n:02d}" produce it. */
module Text {

  predicate IsDigit(c: char) {
    '0' <= c <= '9'
  }

  function DigitChar(d: nat): (c: char)
    requires d < 10
    ensures IsDigit(c) && c as int - '0' as int == d
  {
    ('0' as int + d) as char
  }

  function DigitValue(c: char): (d: nat)
    requires IsDigit(c)
    ensures d < 10 && DigitChar(d) == c
  {
    c as int - '0' as int
  }

  /** The decimal digits of n, most significant first, with no leading zero. */
  function NatToString(n: nat): (s: string)
    ensures |s| >= 1
    ensures forall i :: 0 <= i < |s| ==> IsDigit(s[i])
    ensures n < 10 <==> |s| == 1
    ensures n >= 100 ==> |s| >= 3
    decreases n
  {
    if n < 10 then [DigitChar(n)] else NatToString(n / 10) + [DigitChar(n % 10)]
  }

  /** Reads a string of decimal digits back as a number. */
  function ParseNat(s: string): nat
    requires forall i :: 0 <= i < |s| ==> IsDigit(s[i])
  {
    if s == [] then 0 else ParseNat(s[..|s| - 1]) * 10 + DigitValue(s[|s| - 1])
  }

  /** Rendering and parsing are inverse: the decimal text of n reads back as n. */
  lemma {:induction false} ParseNatToString(n: nat)
    ensures ParseNat(NatToString(n)) == n
    decreases n
  {
    if n >= 10 {
      var s := NatToString(n);
      assert s[..|s| - 1] == NatToString(n / 10);
      ParseNatToString(n / 10);
    }
  }

  /** Distinct numbers render as distinct texts. */
  lemma NatToStringInjective(m: nat, n: nat)
    requires NatToString(m) == NatToString(n)
    ensures m == n
  {
    ParseNatToString(m);
    ParseNatToString(n);
  }

  /** A number tagged between a fixed prefix and ")" can be read back from the tag. */
  lemma TaggedNumberInjective(prefix: string, m: nat, n: nat)
    ensures prefix + NatToString(m) + ")" == prefix + NatToString(n) + ")" <==> m == n
  {
    var a, b := NatToString(m), NatToString(n);
    if prefix + a + ")" == prefix + b + ")" {
      var s := prefix + a + ")";
      assert s[|prefix|..|prefix| + |a|] == a;
      assert s[|prefix|..|prefix| + |b|] == b;
      NatToStringInjective(m, n);
    }
  }

  /** Python's f"{n:02d}": at least two characters, zero-padded, a leading '-' for negatives. */
  function ZeroPad2(n: int): (s: string)
  {
    if n < 0 then "-" + NatToString(-n)
    else if n < 10 then "0" + NatToString(n)
    else NatToString(n)
  }

  /** Two digits exactly for 0..99, reading back as n; longer for larger numbers; a sign for negatives. */
  lemma ZeroPad2Shape(n: int)
    ensures 0 <= n < 100 ==> |ZeroPad2(n)| == 2 && IsDigit(ZeroPad2(n)[0]) && IsDigit(ZeroPad2(n)[1])
                             && ParseNat(ZeroPad2(n)) == n
    ensures n >= 100 ==> |ZeroPad2(n)| >= 3
    ensures n < 0 ==> |ZeroPad2(n)| >= 2 && ZeroPad2(n)[0] == '-'
  {
    if 0 <= n < 10 {
      var s := ZeroPad2(n);
      assert s[..1] == "0";
      assert ParseNat(s[..1]) == ParseNat(s[..0]) * 10 + 0;
    } else if 10 <= n < 100 {
      var s := NatToString(n);
      assert s == NatToString(n / 10) + [DigitChar(n % 10)];
      assert s[..1] == NatToString(n / 10);
      assert ParseNat(s[..1]) == n / 10;
    }
  }
}
