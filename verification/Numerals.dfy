/** Numerals in a radix: how they are written, how they are read, and that reading undoes writing. */
module Numerals {
  import opened CStrings
  import opened Bits

  /** A digit's character: '0' to '9', then 'A' onwards. */
  function DigitChar(c: nat): char
    requires c < 37
  {
    if c > 9 then ('A' as int - 10 + c) as char else ('0' as int + c) as char
  }

  /** The numeral of `n`, without leading zeros; nothing for 0. */
  function Digits(n: nat, radix: nat): string
    requires 2 <= radix <= 37
  {
    if n == 0 then "" else
      Shrunk(n, radix);
      Digits(n / radix, radix) + [DigitChar(n % radix)]
  }

  lemma Shrunk(n: nat, radix: nat)
    requires n > 0 && radix >= 2
    ensures 0 <= n / radix < n && 0 <= n % radix < radix
    ensures 2 * (n / radix) <= n && n == (n / radix) * radix + n % radix
  {
    var q := n / radix;
    assert n == q * radix + n % radix;
    AtLeastDouble(q, radix);
  }

  lemma AtLeastDouble(q: int, radix: nat)
    requires radix >= 2
    ensures q >= 0 ==> q * radix >= 2 * q
    ensures q < 0 ==> q * radix <= 0 - radix
  {
  }

  /** The digit a character is read as, or -1. Letters are taken up to one past the radix's own. */
  function DigitOf(c: char, radix: nat): int {
    if '0' <= c <= '9' && c as int < '0' as int + radix then c as int - '0' as int
    else if 'a' <= c && c as int <= 'a' as int + radix - 10 then c as int - 'a' as int + 10
    else if 'A' <= c && c as int <= 'A' as int + radix - 10 then c as int - 'A' as int + 10
    else -1
  }

  /** The number read from position `i` on, up to the first character that is no digit. */
  function Reading(s: string, i: nat, radix: nat, acc: nat): nat
    requires i <= |s|
    decreases |s| - i
  {
    if i == |s| || DigitOf(s[i], radix) < 0 then acc
    else Reading(s, i + 1, radix, acc * radix + DigitOf(s[i], radix))
  }

  /** What `set` makes of a string before it is brought into 128 bits. */
  function Read(s: string): int {
    var minus := At(s, 0) == '-';
    var start := if minus then 1 else 0;
    var radix, first := if At(s, start) != '0' then 10 else if At(s, start + 1) == 'x' then 16 else 8,
                        if At(s, start) != '0' then start else if At(s, start + 1) == 'x' then start + 2 else start + 1;
    var n := Reading(s, first, radix, 0);
    if minus then 0 - n else 0 + n
  }

  // ----- What characters are worth -----

  const DIGITS: string := "0123456789abcdefghijklmnopqrstuvwxyz"
  const CAPITALS: string := "0123456789ABCDEFGHIJKLMNOPQRSTUVWXYZ"

  /**
   * In the three radixes of the parser a character is read as its place in the list of digits, in either case. A digit
   * counts if it is below the radix; so does the letter that is worth the radix itself.
   */
  lemma DigitIsWorth(c: char, radix: nat, k: int)
    requires radix in {8, 10, 16}
    ensures DigitOf(c, radix) == k && k >= 0 <==>
      0 <= k < 36 && (c == DIGITS[k] || c == CAPITALS[k]) && (k < radix || (k == radix && k >= 10))
  {
    if 0 <= k < 36 { DigitsAre(k); }
    var d := DigitOf(c, radix);
    if 0 <= d < 36 { DigitsAre(d); }
  }

  lemma DigitsAre(k: nat)
    requires k < 36
    ensures DIGITS[k] as int == (if k < 10 then '0' as int + k else 'a' as int + k - 10)
    ensures CAPITALS[k] as int == (if k < 10 then '0' as int + k else 'A' as int + k - 10)
  {
  }

  lemma DigitCharIs(k: nat)
    requires k < 36
    ensures DigitChar(k) == CAPITALS[k]
  {
    DigitsAre(k);
  }

  /** So a numeral in radix 10 goes on over an "a", which is worth ten. */
  lemma LetterTooFar()
    ensures Read("1a") == 20
  {
    var s := "1a";
    assert DigitOf(s[0], 10) == 1 && DigitOf(s[1], 10) == 10;
    assert Reading(s, 2, 10, 20) == 20;
    assert Reading(s, 1, 10, 1) == 20;
  }

  /** `prefix` put in after any sign. */
  function AfterSign(s: string, prefix: string): string {
    if At(s, 0) == '-' then "-" + prefix + s[1..] else prefix + s
  }

  // ----- Reading undoes writing -----

  lemma DigitBack(c: nat, radix: nat)
    requires 2 <= radix <= 36 && c < radix
    ensures DigitOf(DigitChar(c), radix) == c
  {
  }

  lemma DigitsEnd(n: nat, radix: nat)
    requires n > 0 && 2 <= radix <= 36
    ensures Digits(n, radix) == Digits(n / radix, radix) + [DigitChar(n % radix)]
    ensures DigitOf(DigitChar(n % radix), radix) == n % radix && n == (n / radix) * radix + n % radix
  {
    hide DigitOf, DigitChar;
    Shrunk(n, radix);
    DigitBack(n % radix, radix);
  }

  lemma ReadOne(s: string, k: nat, radix: nat, acc: nat)
    requires k < |s| && DigitOf(s[k], radix) >= 0
    ensures Reading(s, k, radix, acc) == Reading(s, k + 1, radix, acc * radix + DigitOf(s[k], radix))
  {
  }

  lemma {:induction false} ReadDigits(p: string, n: nat, t: string, radix: nat)
    requires 2 <= radix <= 36
    ensures var s := p + Digits(n, radix) + t;
      Reading(s, |p|, radix, 0) == Reading(s, |p| + |Digits(n, radix)|, radix, n)
  {
    hide Reading, DigitOf, DigitChar;
    if n > 0 {
      Shrunk(n, radix);
      DigitsEnd(n, radix);
      var q, c := n / radix, DigitChar(n % radix);
      ReadDigits(p, q, [c] + t, radix);
      Reassociate(p, Digits(q, radix), c, t);
      ReadOne(p + Digits(n, radix) + t, |p| + |Digits(q, radix)|, radix, q);
    }
  }

  lemma Reassociate(p: string, d: string, c: char, t: string)
    ensures p + d + ([c] + t) == p + (d + [c]) + t
    ensures (p + (d + [c]) + t)[|p| + |d|] == c
  {
  }

  lemma ReadEnd(s: string, radix: nat, acc: nat)
    ensures Reading(s, |s|, radix, acc) == acc
  {
  }

  lemma ReadsBack(p: string, n: nat, radix: nat)
    requires 2 <= radix <= 36
    ensures Reading(p + Digits(n, radix), |p|, radix, 0) == n
  {
    hide Reading, Digits;
    ReadDigits(p, n, "", radix);
    ReadEnd(p + Digits(n, radix), radix, n);
    assert p + Digits(n, radix) + "" == p + Digits(n, radix);
  }

  /** The first digit is neither a zero nor a sign nor an x. */
  lemma {:induction false} LeadingDigit(n: nat, radix: nat)
    requires n > 0 && 2 <= radix <= 36
    ensures Digits(n, radix) != "" && Digits(n, radix)[0] !in {'0', '-', 'x'}
  {
    Shrunk(n, radix);
    if n >= radix {
      QuotientPositive(n, radix);
      LeadingDigit(n / radix, radix);
    } else {
      DivModUnique(n, radix, 0, n);
    }
  }

  lemma QuotientPositive(n: nat, radix: nat)
    requires 0 < radix <= n
    ensures n / radix > 0
  {
  }

  /** The numeral with its sign. */
  function Numeral(v: int, radix: nat): string
    requires 2 <= radix <= 37
  {
    if v == 0 then "0" else if v < 0 then "-" + Digits(-v, radix) else Digits(v, radix)
  }

  /** The three ways a number may start: nothing, 0x or 0 before the digits. */
  ghost predicate PrefixOf(prefix: string, radix: nat) {
    (prefix == "" && radix == 10) || (prefix == "0x" && radix == 16) || (prefix == "0" && radix == 8)
  }

  lemma ReadParts(sign: string, prefix: string, d: string, n: nat, radix: nat)
    requires sign == "" || sign == "-"
    requires PrefixOf(prefix, radix)
    requires d != "" && d[0] !in {'0', '-', 'x'}
    requires Reading(sign + prefix + d, |sign| + |prefix|, radix, 0) == n
    ensures Read(sign + prefix + d) == if sign == "" then 0 + n else 0 - n
  {
    hide Reading;
    Characters(sign, prefix, d);
    ReadFrom(sign + prefix + d, |sign|, |sign| + |prefix|, radix, n);
  }

  /** Where the sign and the prefix of a numeral can be seen. */
  ghost predicate Starts(s: string, start: nat, first: nat, radix: nat) {
    first <= |s| && (if At(s, 0) == '-' then start == 1 else start == 0)
    && (if At(s, start) != '0' then radix == 10 && first == start
        else if At(s, start + 1) == 'x' then radix == 16 && first == start + 2
        else radix == 8 && first == start + 1)
  }

  lemma Characters(sign: string, prefix: string, d: string)
    requires sign == "" || sign == "-"
    requires prefix in {"", "0x", "0"}
    requires d != "" && d[0] !in {'0', '-', 'x'}
    ensures Starts(sign + prefix + d, |sign|, |sign| + |prefix|,
                   if prefix == "" then 10 else if prefix == "0" then 8 else 16)
    ensures (At(sign + prefix + d, 0) == '-') == (sign == "-")
  {
    var s := sign + prefix + d;
    assert s[|sign| + |prefix|] == d[0];
    if prefix != "" { assert s[|sign|] == prefix[0] == '0'; }
    if prefix == "0x" { assert s[|sign| + 1] == prefix[1]; }
    if sign == "-" { assert s[0] == '-'; }
  }

  lemma ReadFrom(s: string, start: nat, first: nat, radix: nat, n: nat)
    requires Starts(s, start, first, radix)
    requires Reading(s, first, radix, 0) == n
    ensures Read(s) == if At(s, 0) == '-' then 0 - n else 0 + n
  {
    hide Reading;
  }

  lemma SignFirst(sign: string, prefix: string, d: string)
    requires sign == "" || sign == "-"
    requires d != "" && d[0] != '-'
    ensures AfterSign(sign + d, prefix) == sign + prefix + d
  {
    if sign == "-" {
      assert (sign + d)[1..] == d;
    } else {
      assert sign + d == d && prefix + d == sign + prefix + d;
    }
  }

  lemma ReadZeros()
    ensures Read("0") == 0 && Read("00") == 0 && Read("0x0") == 0
  {
    ReadOne("00", 1, 8, 0);
    ReadOne("0x0", 2, 16, 0);
  }

  lemma ReadMinusZeros()
    ensures Read("-0") == 0 && Read("-00") == 0 && Read("-0x0") == 0
  {
    ReadOne("-00", 2, 8, 0);
    ReadOne("-0x0", 3, 16, 0);
  }

  lemma {:induction false} NoNul(n: nat, radix: nat)
    requires 2 <= radix <= 37
    ensures '\0' !in Digits(n, radix)
  {
    if n > 0 {
      Shrunk(n, radix);
      NoNul(n / radix, radix);
    }
  }

  /** A numeral with its radix's prefix is read as the number it was written from. */
  lemma ReadNumeral(v: int, prefix: string, radix: nat)
    requires PrefixOf(prefix, radix)
    ensures Read(AfterSign(Numeral(v, radix), prefix)) == v
  {
    hide Reading, Read, AfterSign, Digits, DigitOf;
    if v == 0 {
      ReadZeros();
      SignFirst("", prefix, "0");
      assert "" + "0" == "0" && "" + prefix + "0" == prefix + "0";
      assert "" + "0" == "0" && "0" + "0" == "00" && "0x" + "0" == "0x0";
    } else {
      var sign, n := if v < 0 then "-" else "", if v < 0 then 0 - v else v;
      var d := Digits(n, radix);
      assert Numeral(v, radix) == sign + d;
      LeadingDigit(n, radix);
      SignFirst(sign, prefix, d);
      ReadsBack(sign + prefix, n, radix);
      ReadParts(sign, prefix, d, n, radix);
    }
  }
}
