/** The integer formatter of printk: a signed 64-bit number in any base from 2 to 36, with sign,
    prefix, precision and padding, written through a buffer of fifty digits. */
module Numbers {
  import opened Options

  const WORD := 0x1_0000_0000_0000_0000
  const LEAST := -0x8000_0000_0000_0000

  type Long = x: int | LEAST <= x < -LEAST

  /** The bits of `type`. */
  datatype Flags = Flags(zeropad: bool, sign: bool, plus: bool, space: bool, left: bool, special: bool, small: bool)

  /** The strings `digits` points to. */
  function Table(small: bool): (t: string)
    ensures |t| == 36
  {
    if small then "0123456789abcdefghijklmnopqrstuvwxyz" else "0123456789ABCDEFGHIJKLMNOPQRSTUVWXYZ"
  }

  /** Places in tmp. */
  const ROOM := 50

  // ---------------------------------------------------------------- the text of a number

  /** Two's complement negation, and the word a signed number is stored as. */
  function Negated(x: Long): Long {
    if x == LEAST then x else -x
  }

  function Unsigned(x: Long): (u: nat)
    ensures u < WORD
  {
    if x < 0 then x + WORD else x
  }

  function Magnitude(num: Long, f: Flags): nat {
    Unsigned(if f.sign && num < 0 then Negated(num) else num)
  }

  function Sign(num: Long, f: Flags): string {
    if f.sign && num < 0 then "-" else if f.plus then "+" else if f.space then " " else ""
  }

  function Prefix(base: int, f: Flags): string {
    if !f.special then "" else if base == 8 then "0" else if base == 16 then (if f.small then "0x" else "0X") else ""
  }

  function Digit(d: nat, small: bool): char
    requires d < 36
  {
    if d < 10 then '0' + d as char else (if small then 'a' else 'A') + (d - 10) as char
  }

  /** The digits of u, most significant first. */
  function Digits(u: nat, base: nat, small: bool): (s: string)
    requires 2 <= base <= 36
    ensures |s| >= 1
  {
    if u < base then [Digit(u, small)] else Digits(u / base, base, small) + [Digit(u % base, small)]
  }

  function Repeat(n: int, c: char): (s: string)
    ensures |s| == (if n > 0 then n else 0) && forall i :: 0 <= i < |s| ==> s[i] == c
  {
    if n > 0 then Repeat(n - 1, c) + [c] else ""
  }

  function Max(a: int, b: int): int {
    if a > b then a else b
  }

  /** Leading zeros up to the precision, then the digits. */
  function Numeral(num: Long, base: nat, precision: int, f: Flags): string
    requires 2 <= base <= 36
  {
    var digits := Digits(Magnitude(num, f), base, f.small);
    Repeat(precision - |digits|, '0') + digits
  }

  /** What number writes. */
  function Text(num: Long, base: nat, size: int, precision: int, f: Flags): string
    requires 2 <= base <= 36
  {
    var head, numeral := Sign(num, f) + Prefix(base, f), Numeral(num, base, precision, f);
    var pad := size - |head| - |numeral|;
    if f.left then head + numeral + Repeat(pad, ' ')
    else if f.zeropad then head + Repeat(pad, '0') + numeral
    else Repeat(pad, ' ') + head + numeral
  }

  /** The text is as long as the width asked for, or as the number needs with its sign and prefix. */
  lemma TextLength(num: Long, base: nat, size: int, precision: int, f: Flags)
    requires 2 <= base <= 36
    ensures |Text(num, base, size, precision, f)| ==
      Max(size, (if (f.sign && num < 0) || f.plus || f.space then 1 else 0)
              + (if !f.special then 0 else if base == 16 then 2 else if base == 8 then 1 else 0)
              + Max(precision, |Digits(Magnitude(num, f), base, f.small)|))
  {
  }

  // ---------------------------------------------------------------- how many digits

  function Power(base: nat, k: nat): nat {
    if k == 0 then 1 else base * Power(base, k - 1)
  }

  /** u has at most k digits exactly when it is below the k-th power of the base. */
  lemma {:induction false} DigitCount(u: nat, base: nat, small: bool, k: nat)
    requires 2 <= base <= 36 && k > 0
    ensures |Digits(u, base, small)| <= k <==> u < Power(base, k)
    decreases k
  {
    if k == 1 {
      assert Power(base, 1) == base;
    } else if u >= base {
      DigitCount(u / base, base, small, k - 1);
      Quotient(u, base, Power(base, k - 1));
    } else {
      PowerGrows(base, k);
    }
  }

  lemma Quotient(u: nat, base: nat, p: nat)
    requires base > 0
    ensures u / base < p <==> u < base * p
  {
    var q, r := u / base, u % base;
    assert u == base * q + r;
    hide *;
    if q < p {
      ProductMonotone(base, base, q + 1, p);
      assert base * (q + 1) == base * q + base;
    } else {
      ProductMonotone(base, base, p, q);
    }
  }

  lemma {:induction false} PowerGrows(base: nat, k: nat)
    requires base >= 2 && k > 0
    ensures Power(base, k) >= base
  {
    if k > 1 {
      PowerGrows(base, k - 1);
      assert base * Power(base, k - 1) >= base * 1;
    }
  }

  lemma {:induction false} PowerMonotone(a: nat, b: nat, k: nat)
    requires a <= b
    ensures Power(a, k) <= Power(b, k)
  {
    if k > 0 {
      PowerMonotone(a, b, k - 1);
      ProductMonotone(a, b, Power(a, k - 1), Power(b, k - 1));
    }
  }

  lemma ProductMonotone(a: nat, b: nat, x: nat, y: nat)
    requires a <= b && x <= y
    ensures a * x <= b * y
  {
    assert a * x <= b * x <= b * y;
  }

  lemma {:induction false} PowerAdds(base: nat, j: nat, k: nat)
    ensures Power(base, j + k) == Power(base, j) * Power(base, k)
  {
    if j > 0 {
      PowerAdds(base, j - 1, k);
      Regroup(base, Power(base, j - 1), Power(base, k));
    }
  }

  lemma Regroup(a: nat, b: nat, c: nat)
    ensures a * (b * c) == a * b * c
  {
  }

  lemma {:induction false} PowerDoubles(base: nat, k: nat, p: nat)
    requires Power(base, k) == p
    ensures Power(base, 2 * k) == p * p
  {
    PowerAdds(base, k, k);
    assert k + k == 2 * k;
  }

  /** The fiftieth power, by way of the fifth, tenth and fortieth. */
  lemma PowerFifty(base: nat, p: nat)
    requires Power(base, 5) == p
    ensures var q := p * p; var r := q * q; Power(base, 50) == r * r * q
  {
    hide Power;
    var q := p * p;
    var r := q * q;
    PowerDoubles(base, 5, p);
    PowerDoubles(base, 10, q);
    PowerDoubles(base, 20, r);
    PowerAdds(base, 40, 10);
  }

  lemma BigPowers()
    ensures Power(2, 50) == 0x4_0000_0000_0000 && Power(3, 50) >= WORD
  {
    assert Power(2, 5) == 32 && Power(3, 5) == 243;
    hide Power;
    PowerFifty(2, 32);
    PowerFifty(3, 243);
  }

  /** The fifty places of tmp hold every 64-bit number in every base except the large ones in binary. */
  lemma TmpIsLargeEnough(u: nat, base: nat, small: bool)
    requires u < WORD && 2 <= base <= 36
    ensures |Digits(u, base, small)| <= ROOM <==> !(base == 2 && u >= 0x4_0000_0000_0000)
  {
    BigPowers();
    DigitCount(u, base, small, 50);
    if base > 2 {
      PowerMonotone(3, base, 50);
    }
  }

  // ---------------------------------------------------------------- reading back

  /** The value of a digit character, or 36 for any other character. */
  function DigitValue(c: char): (v: nat)
    ensures v <= 36
  {
    if '0' <= c <= '9' then (c - '0') as int
    else if 'a' <= c <= 'z' then (c - 'a') as int + 10
    else if 'A' <= c <= 'Z' then (c - 'A') as int + 10
    else 36
  }

  lemma DigitRoundTrip(d: nat, small: bool)
    requires d < 36
    ensures DigitValue(Digit(d, small)) == d && Digit(d, small) != ' '
  {
  }

  predicate AllDigits(s: string, base: nat) {
    forall i :: 0 <= i < |s| ==> DigitValue(s[i]) < base
  }

  function Value(s: string, base: nat): nat {
    if s == "" then 0 else Value(s[..|s| - 1], base) * base + DigitValue(s[|s| - 1])
  }

  function SkipSpaces(s: string): string {
    if s != "" && s[0] == ' ' then SkipSpaces(s[1..]) else s
  }

  function Leading(s: string, base: nat): (n: nat)
    ensures n <= |s|
  {
    if s != "" && DigitValue(s[0]) < base then 1 + Leading(s[1..], base) else 0
  }

  function SkipPrefix(s: string, base: nat): string {
    if base == 16 && |s| >= 2 && s[0] == '0' && (s[1] == 'x' || s[1] == 'X') then s[2..] else s
  }

  function ReadUnsigned(s: string, base: nat): int {
    var t := SkipPrefix(s, base);
    Value(t[..Leading(t, base)], base)
  }

  /** A reader in the manner of strtol: spaces, a sign, the prefix of base 16, and digits up to the
      first character that is none. */
  function Read(s: string, base: nat): int {
    var t := SkipSpaces(s);
    if t != "" && t[0] == '-' then -ReadUnsigned(t[1..], base)
    else if t != "" && t[0] == '+' then ReadUnsigned(t[1..], base)
    else ReadUnsigned(t, base)
  }

  lemma {:induction false} DigitsRoundTrip(u: nat, base: nat, small: bool)
    requires 2 <= base <= 36
    ensures AllDigits(Digits(u, base, small), base) && Value(Digits(u, base, small), base) == u
  {
    if u < base {
      OneDigit(u, base, small);
    } else {
      var q, d := u / base, u % base;
      Euclid(u, base);
      assert Digits(u, base, small) == Digits(q, base, small) + [Digit(d, small)];
      hide *;
      DigitsRoundTrip(q, base, small);
      DigitRoundTrip(d, small);
      ValueOfMore(Digits(q, base, small), Digit(d, small), base);
    }
  }

  lemma OneDigit(u: nat, base: nat, small: bool)
    requires u < base && 2 <= base <= 36
    ensures AllDigits(Digits(u, base, small), base) && Value(Digits(u, base, small), base) == u
  {
    DigitRoundTrip(u, small);
    assert Digits(u, base, small)[..0] == "";
  }

  lemma Euclid(u: nat, base: nat)
    requires base >= 2 && u > 0
    ensures u == u / base * base + u % base && u / base < u
  {
  }

  lemma ValueOfMore(s: string, c: char, base: nat)
    ensures AllDigits(s, base) && DigitValue(c) < base ==> AllDigits(s + [c], base)
    ensures Value(s + [c], base) == Value(s, base) * base + DigitValue(c)
  {
    assert (s + [c])[..|s + [c]| - 1] == s;
  }

  lemma {:induction false} LeadingZeros(n: int, s: string, base: nat)
    requires base >= 2
    ensures Value(Repeat(n, '0') + s, base) == Value(s, base)
    decreases |s|, n
  {
    var z := Repeat(n, '0');
    if s != "" {
      assert (z + s)[..|z + s| - 1] == z + s[..|s| - 1];
      LeadingZeros(n, s[..|s| - 1], base);
    } else if n > 0 {
      assert z + "" == z && z[..|z| - 1] == Repeat(n - 1, '0') && Repeat(n - 1, '0') + "" == Repeat(n - 1, '0');
      LeadingZeros(n - 1, "", base);
    }
  }

  lemma {:induction false} LeadingIsAll(s: string, t: string, base: nat)
    requires AllDigits(s, base) && (t == "" || DigitValue(t[0]) >= base)
    ensures Leading(s + t, base) == |s|
  {
    if s != "" {
      assert (s + t)[1..] == s[1..] + t;
      LeadingIsAll(s[1..], t, base);
    } else {
      assert s + t == t;
    }
  }

  lemma {:induction false} SkipRepeat(n: int, s: string)
    ensures SkipSpaces(Repeat(n, ' ') + s) == SkipSpaces(s)
  {
    if n > 0 {
      assert Repeat(n, ' ') + s == Repeat(n - 1, ' ') + ([' '] + s);
      SkipRepeat(n - 1, [' '] + s);
      assert ([' '] + s)[1..] == s;
    } else {
      assert Repeat(n, ' ') + s == s;
    }
  }

  /** Digits followed by spaces or nothing are read to their end, and are not taken for a prefix. */
  lemma ReadPlain(s: string, tail: string, base: nat)
    requires 2 <= base <= 36 && s != "" && AllDigits(s, base) && (tail == "" || tail[0] == ' ')
    ensures SkipPrefix(s + tail, base) == s + tail
    ensures Value((s + tail)[..Leading(s + tail, base)], base) == Value(s, base)
  {
    LeadingIsAll(s, tail, base);
    assert (s + tail)[..|s|] == s;
    var t := s + tail;
    if base == 16 && |t| >= 2 {
      assert DigitValue(t[1]) < 16 || t[1] == ' ';
    }
  }

  /** The digits of u behind zeros. */
  lemma ValueOfNumeral(u: nat, base: nat, small: bool, zeros: int, more: int)
    requires 2 <= base <= 36
    ensures var numeral := Repeat(zeros, '0') + (Repeat(more, '0') + Digits(u, base, small));
      |numeral| > 0 && AllDigits(numeral, base) && Value(numeral, base) == u
  {
    hide Value, Repeat;
    var digits := Digits(u, base, small);
    DigitsRoundTrip(u, base, small);
    LeadingZeros(more, digits, base);
    LeadingZeros(zeros, Repeat(more, '0') + digits, base);
  }

  /** Behind any prefix a numeral reads back as its value, whatever spaces follow. */
  lemma ReadNumeral(numeral: string, base: nat, f: Flags, spaces: int)
    requires 2 <= base <= 36 && numeral != "" && AllDigits(numeral, base)
    ensures var s := Prefix(base, f) + (numeral + Repeat(spaces, ' '));
      |s| > 0 && DigitValue(s[0]) < base && ReadUnsigned(s, base) == Value(numeral, base)
  {
    hide Value, Repeat, Leading;
    var tail := Repeat(spaces, ' ');
    var t := numeral + tail;
    assert t[0] == numeral[0];
    if Prefix(base, f) == "0" {
      var zero := "0" + numeral;
      LeadingZeros(1, numeral, base);
      assert Repeat(1, '0') == "0";
      ReadPlain(zero, tail, base);
      assert "0" + t == zero + tail;
    } else if Prefix(base, f) == "" {
      ReadPlain(numeral, tail, base);
      assert "" + t == t;
    } else {
      ReadPlain(numeral, tail, base);
      assert (Prefix(base, f) + t)[2..] == t;
    }
  }

  /** The value of a text with this sign in front. */
  lemma ReadSigned(sign: string, s: string, base: nat)
    requires 2 <= base <= 36 && sign in {"", "-", "+", " "} && |s| > 0 && DigitValue(s[0]) < base
    ensures Read(sign + s, base) == if sign == "-" then -ReadUnsigned(s, base) else ReadUnsigned(s, base)
  {
    hide ReadUnsigned;
    assert SkipSpaces(s) == s;
    if sign == "" {
      assert sign + s == s;
    } else {
      assert (sign + s)[0] == sign[0] && (sign + s)[1..] == s;
    }
  }

  lemma ReadSkips(n: int, s: string, base: nat)
    ensures Read(Repeat(n, ' ') + s, base) == Read(s, base)
  {
    SkipRepeat(n, s);
  }

  /** Round trip: what number writes reads back as the number: the signed value under SIGN, the
      64-bit word otherwise. */
  lemma TextReadsBack(num: Long, base: nat, size: int, precision: int, f: Flags)
    requires 2 <= base <= 36
    ensures Read(Text(num, base, size, precision, f), base) == if f.sign then num else Unsigned(num)
  {
    hide Read, Value, Digits, Repeat, AllDigits;
    var sign, prefix, digits := Sign(num, f), Prefix(base, f), Digits(Magnitude(num, f), base, f.small);
    var numeral := Numeral(num, base, precision, f);
    var pad := size - |sign + prefix| - |numeral|;
    var zeros, spaces := if !f.left && f.zeropad then pad else 0, if f.left then pad else 0;
    var all := Repeat(zeros, '0') + numeral;
    ValueOfNumeral(Magnitude(num, f), base, f.small, zeros, precision - |digits|);
    ReadNumeral(all, base, f, spaces);
    var s := prefix + (all + Repeat(spaces, ' '));
    ReadSigned(sign, s, base);
    TextForm(num, base, size, precision, f);
    ReadSkips(pad, sign + s, base);
  }

  lemma TextForm(num: Long, base: nat, size: int, precision: int, f: Flags)
    requires 2 <= base <= 36
    ensures var numeral := Numeral(num, base, precision, f);
      var pad := size - |Sign(num, f) + Prefix(base, f)| - |numeral|;
      var zeros, spaces := if !f.left && f.zeropad then pad else 0, if f.left then pad else 0;
      var s := Sign(num, f) + (Prefix(base, f) + (Repeat(zeros, '0') + numeral + Repeat(spaces, ' ')));
      Text(num, base, size, precision, f) == if f.left || f.zeropad then s else Repeat(pad, ' ') + s
  {
    hide Sign, Prefix, Numeral;
  }

  // ---------------------------------------------------------------- what the flags show

  /** A text without the spaces and the sign in front. */
  function Body(s: string): string {
    var t := SkipSpaces(s);
    if t != "" && (t[0] == '-' || t[0] == '+') then t[1..] else t
  }

  /** The base that a reader in the manner of strtol takes when it is told none. */
  function AutoBase(s: string): int {
    if |s| >= 2 && s[0] == '0' && (s[1] == 'x' || s[1] == 'X') then 16
    else if s != "" && s[0] == '0' then 8
    else 10
  }

  /** Sign, prefix, then digits: what is between the spaces. */
  lemma BodyIs(num: Long, base: nat, size: int, precision: int, f: Flags)
    requires 2 <= base <= 36
    ensures var digits := Digits(Magnitude(num, f), base, f.small);
      var pad := size - |Sign(num, f) + Prefix(base, f)| - |Numeral(num, base, precision, f)|;
      var zeros, spaces := if !f.left && f.zeropad then pad else 0, if f.left then pad else 0;
      var all := Repeat(zeros, '0') + Numeral(num, base, precision, f);
      && all != "" && AllDigits(all, base)
      && SkipSpaces(Text(num, base, size, precision, f)) ==
           (if Sign(num, f) == " " then "" else Sign(num, f)) + (Prefix(base, f) + (all + Repeat(spaces, ' ')))
  {
    hide Value, Digits, Repeat, AllDigits, Text, SkipSpaces, Sign, Prefix, Magnitude;
    var sign, prefix, digits := Sign(num, f), Prefix(base, f), Digits(Magnitude(num, f), base, f.small);
    var numeral := Numeral(num, base, precision, f);
    var pad := size - |sign + prefix| - |numeral|;
    var zeros, spaces := if !f.left && f.zeropad then pad else 0, if f.left then pad else 0;
    var all := Repeat(zeros, '0') + numeral;
    ValueOfNumeral(Magnitude(num, f), base, f.small, zeros, precision - |digits|);
    DigitFirst(all, base);
    TextForm(num, base, size, precision, f);
    hide *;
    HeadIs(num, base, f);
    SkipHead(sign, prefix, all + Repeat(spaces, ' '), pad);
  }

  lemma HeadIs(num: Long, base: nat, f: Flags)
    ensures Sign(num, f) in {"", "-", "+", " "} && (Prefix(base, f) == "" || Prefix(base, f)[0] == '0')
  {
  }

  lemma SkipHead(sign: string, prefix: string, rest: string, n: int)
    requires sign in {"", "-", "+", " "} && (prefix == "" || prefix[0] == '0') && rest != "" && rest[0] != ' '
    ensures var s := prefix + rest;
      && SkipSpaces(sign + s) == (if sign == " " then "" else sign) + s
      && SkipSpaces(Repeat(n, ' ') + (sign + s)) == (if sign == " " then "" else sign) + s
  {
    var s := prefix + rest;
    assert s[0] == if prefix == "" then rest[0] else '0';
    SkipRepeat(n, sign + s);
    hide Repeat;
    if sign == " " {
      assert (sign + s)[1..] == s && "" + s == s;
    } else if sign == "" {
      assert sign + s == s;
    }
  }

  lemma DigitFirst(s: string, base: nat)
    requires s != "" && AllDigits(s, base) && base <= 36
    ensures s[0] != ' ' && s[0] != '-' && s[0] != '+'
  {
    assert DigitValue(s[0]) < 36;
  }

  /** Under SPECIAL the text tells its base: 0x in front for 16, 0 for 8. */
  lemma TextTellsBase(num: Long, base: nat, size: int, precision: int, f: Flags)
    requires f.special && base in {8, 16}
    ensures AutoBase(Body(Text(num, base, size, precision, f))) == base
  {
    hide Text, Numeral, Digits, Repeat, Prefix, Sign, Magnitude, AutoBase, AllDigits, SkipSpaces, Value;
    BodyIs(num, base, size, precision, f);
    var pad := size - |Sign(num, f) + Prefix(base, f)| - |Numeral(num, base, precision, f)|;
    var zeros, spaces := if !f.left && f.zeropad then pad else 0, if f.left then pad else 0;
    var all := Repeat(zeros, '0') + Numeral(num, base, precision, f);
    HeadIs(num, base, f);
    PrefixTellsBase(base, f, all, Repeat(spaces, ' '));
    BodyBehindSign(Text(num, base, size, precision, f), Sign(num, f), Prefix(base, f), all + Repeat(spaces, ' '));
  }

  lemma BodyBehindSign(text: string, sign: string, prefix: string, rest: string)
    requires sign in {"", "-", "+", " "} && SkipSpaces(text) == (if sign == " " then "" else sign) + (prefix + rest)
    requires prefix != "" && prefix[0] == '0'
    ensures Body(text) == prefix + rest
  {
    hide SkipSpaces;
    var s := prefix + rest;
    if sign == "" || sign == " " {
      assert "" + s == s && s[0] == '0';
    } else {
      assert (sign + s)[1..] == s;
    }
  }

  lemma PrefixTellsBase(base: nat, f: Flags, all: string, rest: string)
    requires f.special && base in {8, 16} && all != "" && AllDigits(all, base)
    ensures Prefix(base, f) != "" && AutoBase(Prefix(base, f) + (all + rest)) == base
  {
    var s := Prefix(base, f) + (all + rest);
    if base == 8 {
      assert s[0] == '0' && s[1] == all[0] && DigitValue(all[0]) < 8;
    } else {
      assert s[0] == '0' && s[1] == (if f.small then 'x' else 'X');
    }
  }

  /** The sign shows: minus for a negative number under SIGN, else plus under PLUS, else a space under
      SPACE, and neither of the first two otherwise. */
  lemma TextShowsSign(num: Long, base: nat, size: int, precision: int, f: Flags)
    requires 2 <= base <= 36
    ensures var text := Text(num, base, size, precision, f);
      var t := SkipSpaces(text);
      && t != "" && (t[0] == '-' <==> f.sign && num < 0) && (t[0] == '+' <==> f.plus && !(f.sign && num < 0))
      && (f.space && !f.plus && !(f.sign && num < 0) ==> text[0] == ' ')
  {
    hide Numeral, Repeat;
    BodyIs(num, base, size, precision, f);
    var pad := size - |Sign(num, f) + Prefix(base, f)| - |Numeral(num, base, precision, f)|;
    var all := Repeat(if !f.left && f.zeropad then pad else 0, '0') + Numeral(num, base, precision, f);
    DigitFirst(all, base);
    assert (Prefix(base, f) + (all + Repeat(if f.left then pad else 0, ' ')))[0] == if Prefix(base, f) == "" then all[0] else '0';
  }

  /** No letter of the wrong case, in digits or prefix. */
  lemma TextHasCase(num: Long, base: nat, size: int, precision: int, f: Flags)
    requires 2 <= base <= 36
    ensures forall c :: c in Text(num, base, size, precision, f) ==> if f.small then !('A' <= c <= 'Z') else !('a' <= c <= 'z')
  {
    DigitsHaveCase(Magnitude(num, f), base, f.small);
    var digits := Digits(Magnitude(num, f), base, f.small);
    hide Digits, Magnitude;
    var pad := size - |Sign(num, f) + Prefix(base, f)| - |Numeral(num, base, precision, f)|;
    assert forall c :: c in Repeat(pad, ' ') ==> c == ' ';
    assert forall c :: c in Repeat(pad, '0') || c in Repeat(precision - |digits|, '0') ==> c == '0';
    assert forall c :: c in Numeral(num, base, precision, f) ==> c == '0' || c in digits;
  }

  lemma {:induction false} DigitsHaveCase(u: nat, base: nat, small: bool)
    requires 2 <= base <= 36
    ensures forall c :: c in Digits(u, base, small) ==> if small then !('A' <= c <= 'Z') else !('a' <= c <= 'z')
    decreases u
  {
    if u >= base {
      Euclid(u, base);
      DigitsHaveCase(u / base, base, small);
    }
  }

  lemma PadsBehind(core: string, n: int)
    ensures (core + Repeat(n, ' '))[..|core|] == core
    ensures forall i :: |core| <= i < |core + Repeat(n, ' ')| ==> (core + Repeat(n, ' '))[i] == ' '
  {
  }

  lemma PadsInFront(core: string, n: int)
    ensures var text, pad := Repeat(n, ' ') + core, |Repeat(n, ' ')|;
      text[pad..] == core && forall i :: 0 <= i < pad ==> text[i] == ' '
  {
  }

  lemma PadsWithin(head: string, rest: string, n: int)
    ensures var text, core, pad := head + Repeat(n, '0') + rest, head + rest, |Repeat(n, '0')|;
      && text[..|head|] == core[..|head|] && text[|head| + pad..] == core[|head|..]
      && forall i :: |head| <= i < |head| + pad ==> text[i] == '0'
  {
  }

  /** Without padding: sign, prefix and digits, with no space but for the sign. */
  lemma CoreIs(num: Long, base: nat, precision: int, f: Flags)
    requires 2 <= base <= 36
    ensures var head := Sign(num, f) + Prefix(base, f);
      var core := head + Numeral(num, base, precision, f);
      && Text(num, base, 0, precision, f) == core
      && forall i :: 0 <= i < |core| && core[i] == ' ' ==> i == 0 && Sign(num, f) == " "
  {
    var numeral, head := Numeral(num, base, precision, f), Sign(num, f) + Prefix(base, f);
    BareText(num, base, precision, f);
    NumeralDigits(num, base, precision, f);
    HeadSpaces(num, base, f);
    hide *;
  }

  lemma BareText(num: Long, base: nat, precision: int, f: Flags)
    requires 2 <= base <= 36
    ensures Text(num, base, 0, precision, f) == Sign(num, f) + Prefix(base, f) + Numeral(num, base, precision, f)
  {
    var numeral, head := Numeral(num, base, precision, f), Sign(num, f) + Prefix(base, f);
    hide Numeral, Sign, Prefix, Repeat;
    RepeatNothing();
    assert head + numeral + "" == head + numeral && "" + head + numeral == head + numeral && head + "" + numeral == head + numeral;
  }

  lemma NumeralDigits(num: Long, base: nat, precision: int, f: Flags)
    requires 2 <= base <= 36
    ensures var numeral := Numeral(num, base, precision, f); forall i :: 0 <= i < |numeral| ==> numeral[i] != ' '
  {
    var digits := Digits(Magnitude(num, f), base, f.small);
    DigitsRoundTrip(Magnitude(num, f), base, f.small);
    hide Digits, Magnitude, Value;
    assert forall i :: 0 <= i < |digits| ==> DigitValue(digits[i]) < base;
  }

  lemma HeadSpaces(num: Long, base: nat, f: Flags)
    ensures var head := Sign(num, f) + Prefix(base, f); forall i :: 0 <= i < |head| && head[i] == ' ' ==> i == 0 && Sign(num, f) == " "
  {
  }

  /** Where the padding goes: behind the text under LEFT, zeros between head and digits under ZEROPAD, and
      spaces in front otherwise. */
  lemma TextPads(num: Long, base: nat, size: int, precision: int, f: Flags)
    requires 2 <= base <= 36
    ensures var text, core := Text(num, base, size, precision, f), Text(num, base, 0, precision, f);
      var pad, head := |text| - |core|, |Sign(num, f)| + |Prefix(base, f)|;
      && pad >= 0 && head <= |core| && (pad > 0 ==> |text| == size)
      && (f.left ==> text[..|core|] == core && forall i :: |core| <= i < |text| ==> text[i] == ' ')
      && (!f.left && f.zeropad ==>
            && text[..head] == core[..head] && text[head + pad..] == core[head..]
            && forall i :: head <= i < head + pad ==> text[i] == '0')
      && (!f.left && !f.zeropad ==> text[pad..] == core && forall i :: 0 <= i < pad ==> text[i] == ' ')
      && (forall i :: 0 <= i < |core| && core[i] == ' ' ==> i == 0 && Sign(num, f) == " ")
  {
    hide *;
    CoreIs(num, base, precision, f);
    PaddedIs(num, base, size, precision, f);
    var numeral, head := Numeral(num, base, precision, f), Sign(num, f) + Prefix(base, f);
    var n := size - |head| - |numeral|;
    PadSizes(n);
    if f.left {
      PadsBehind(head + numeral, n);
    } else if f.zeropad {
      PadsWithin(head, numeral, n);
    } else {
      PadsInFront(head + numeral, n);
    }
  }

  lemma PaddedIs(num: Long, base: nat, size: int, precision: int, f: Flags)
    requires 2 <= base <= 36
    ensures var numeral, head := Numeral(num, base, precision, f), Sign(num, f) + Prefix(base, f);
      var n := size - |head| - |numeral|;
      Text(num, base, size, precision, f) ==
        if f.left then head + numeral + Repeat(n, ' ')
        else if f.zeropad then head + Repeat(n, '0') + numeral
        else Repeat(n, ' ') + (head + numeral)
  {
    hide Numeral, Sign, Prefix, Repeat;
  }

  lemma PadSizes(n: int)
    ensures |Repeat(n, ' ')| == |Repeat(n, '0')| == if n > 0 then n else 0
  {
  }

  // ---------------------------------------------------------------- number, in place

  /** The buffer with `out` written from `at` on. */
  ghost predicate Wrote(buffer: array<char>, before: string, at: nat, out: string)
    reads buffer
  {
    && |before| == buffer.Length && at + |out| <= buffer.Length
    && buffer[..] == before[..at] + out + before[at + |out|..]
  }

  lemma MagnitudeFits(num: Long, f: Flags)
    ensures Magnitude(num, f) < WORD
  {
  }

  lemma WroteNothing(buffer: array<char>, at: nat)
    requires at <= buffer.Length
    ensures Wrote(buffer, buffer[..], at, "")
  {
  }

  lemma TableIsDigit(d: nat, small: bool)
    requires d < 36
    ensures Table(small)[d] == Digit(d, small)
  {
  }

  /** `*str++ = c` */
  method Put(buffer: array<char>, str: nat, c: char, ghost before: string, ghost at: nat, ghost out: string)
    requires Wrote(buffer, before, at, out) && str == at + |out| < buffer.Length
    modifies buffer
    ensures Wrote(buffer, before, at, out + [c])
  {
    buffer[str] := c;
  }

  /** `while (size-- > 0) *str++ = c`: the new place, and what is left in size. */
  method Pad(buffer: array<char>, start: nat, width: int, c: char, ghost before: string, ghost at: nat, ghost out: string)
    returns (str: nat, size: int)
    requires Wrote(buffer, before, at, out) && start == at + |out| && start + |Repeat(width, c)| <= buffer.Length
    modifies buffer
    ensures Wrote(buffer, before, at, out + Repeat(width, c)) && str == start + |Repeat(width, c)|
    ensures size < 0
  {
    str, size := start, width;
    assert out + Repeat(0, c) == out;
    while size > 0
      invariant size <= width && (width <= 0 ==> size == width) && (width > 0 ==> size >= 0)
      invariant str == start + (width - size) && Wrote(buffer, before, at, out + Repeat(width - size, c))
    {
      Put(buffer, str, c, before, at, out + Repeat(width - size, c));
      assert out + Repeat(width - size, c) + [c] == out + Repeat(width - size + 1, c);
      str, size := str + 1, size - 1;
    }
    assert width <= 0 ==> Repeat(width, c) == Repeat(0, c);
    size := size - 1;
  }

  /** do_div: the quotient and the remainder, that is the other digits and the last one. */
  method DoDiv(n: nat, base: nat, ghost small: bool) returns (quotient: nat, rest: nat)
    requires 2 <= base <= 36 && n > 0
    ensures rest < base && quotient < n
    ensures var s := Digits(n, base, small);
      && s[|s| - 1] == Digit(rest, small)
      && (if quotient == 0 then |s| == 1 else s[..|s| - 1] == Digits(quotient, base, small))
  {
    Euclid(n, base);
    LastDigit(n, base, small);
    hide *;
    quotient, rest := n / base, n % base;
  }

  /** The digits into tmp, least significant first. */
  method Convert(tmp: array<char>, num: nat, base: nat, small: bool) returns (i: nat)
    requires 2 <= base <= 36 && |Digits(num, base, small)| <= tmp.Length
    modifies tmp
    ensures var s := Digits(num, base, small);
      i == |s| && forall k :: 0 <= k < i ==> tmp[k] == s[|s| - 1 - k]
  {
    hide *;
    ghost var s := Digits(num, base, small);
    var table := Table(small);
    var n: nat := num;
    i := 0;
    if n == 0 {
      ZeroDigit(base, small);
      tmp[i] := '0';
      i := i + 1;
    } else {
      assert s[..|s|] == s;
      while n != 0
        invariant i <= |s| && (n == 0 ==> i == |s|) && (n > 0 ==> Digits(n, base, small) == s[..|s| - i])
        invariant forall k :: 0 <= k < i ==> tmp[k] == s[|s| - 1 - k]
        decreases n
      {
        ghost var rest := s[..|s| - i];
        var d;
        n, d := DoDiv(n, base, small);
        TableIsDigit(d, small);
        assert rest[..|rest| - 1] == s[..|s| - i - 1];
        tmp[i], i := table[d], i + 1;
      }
    }
  }

  lemma ZeroDigit(base: nat, small: bool)
    requires 2 <= base <= 36
    ensures Digits(0, base, small) == "0"
  {
  }

  lemma LastDigit(n: nat, base: nat, small: bool)
    requires 2 <= base <= 36
    ensures var s := Digits(n, base, small);
      && s[|s| - 1] == Digit(n % base, small)
      && (n / base == 0 ==> |s| == 1) && (n / base > 0 ==> s[..|s| - 1] == Digits(n / base, base, small))
  {
    Quotient(n, base, 1);
    if n < base {
      assert n % base == n;
    }
  }

  /** The zeros the precision asks for, then the digits from most to least significant. */
  method PutNumeral(buffer: array<char>, start: nat, tmp: array<char>, i: nat, precision: int, ghost s: string,
      ghost before: string, ghost at: nat, ghost out: string) returns (str: nat)
    requires tmp != buffer && i == |s| <= tmp.Length && forall k :: 0 <= k < i ==> tmp[k] == s[|s| - 1 - k]
    requires Wrote(buffer, before, at, out) && start == at + |out| && start + precision <= buffer.Length && precision >= i
    modifies buffer
    ensures Wrote(buffer, before, at, out + Repeat(precision - i, '0') + s) && str == start + precision
  {
    str := start;
    var left := precision;
    assert out + Repeat(0, '0') == out;
    while i < left
      invariant i <= left <= precision && str == start + (precision - left)
      invariant Wrote(buffer, before, at, out + Repeat(precision - left, '0'))
    {
      Put(buffer, str, '0', before, at, out + Repeat(precision - left, '0'));
      assert out + Repeat(precision - left, '0') + ['0'] == out + Repeat(precision - left + 1, '0');
      str, left := str + 1, left - 1;
    }
    var k: nat := i;
    ghost var head := out + Repeat(precision - i, '0');
    assert head + s[..0] == head;
    while k > 0
      invariant k <= i && str == start + (precision - k) && Wrote(buffer, before, at, head + s[..i - k])
    {
      k := k - 1;
      Put(buffer, str, tmp[k], before, at, head + s[..i - k - 1]);
      assert head + s[..i - k - 1] + [tmp[k]] == head + s[..i - k];
      str := str + 1;
    }
    assert s[..i] == s;
  }

  /** The sign and the prefix. */
  method PutHead(buffer: array<char>, start: nat, num: Long, base: nat, f: Flags,
      ghost before: string, ghost at: nat, ghost out: string) returns (str: nat)
    requires Wrote(buffer, before, at, out) && start == at + |out|
    requires start + |Sign(num, f)| + |Prefix(base, f)| <= buffer.Length
    modifies buffer
    ensures Wrote(buffer, before, at, out + (Sign(num, f) + Prefix(base, f))) && str == start + |Sign(num, f) + Prefix(base, f)|
  {
    hide Table;
    str := start;
    ghost var now := out;
    if Sign(num, f) != "" {
      Put(buffer, str, Sign(num, f)[0], before, at, out);
      str, now := str + 1, out + [Sign(num, f)[0]];
    }
    assert now == out + Sign(num, f);
    if f.special {
      if base == 8 {
        Put(buffer, str, '0', before, at, now);
        str, now := str + 1, now + ['0'];
      } else if base == 16 {
        Put(buffer, str, '0', before, at, now);
        TableIsDigit(33, f.small);
        Put(buffer, str + 1, Table(f.small)[33], before, at, now + ['0']);
        str, now := str + 2, now + ['0'] + [Digit(33, f.small)];
      }
    }
    assert now == out + (Sign(num, f) + Prefix(base, f));
  }

  /** The five pieces of the text, in the order they are written. */
  function Pieces(num: Long, base: nat, width: int, digits: int, f: Flags): (string, string, string, string, string)
    requires 2 <= base <= 36
  {
    var head, numeral := Sign(num, f) + Prefix(base, f), Numeral(num, base, digits, f);
    var pad := width - |head| - |numeral|;
    (if !f.zeropad && !f.left then Repeat(pad, ' ') else "",
     head,
     if f.zeropad && !f.left then Repeat(pad, '0') else "",
     numeral,
     if f.left then Repeat(pad, ' ') else "")
  }

  lemma PiecesMakeText(num: Long, base: nat, width: int, digits: int, f: Flags)
    requires 2 <= base <= 36
    ensures var (a, b, c, d, e) := Pieces(num, base, width, digits, f);
      Text(num, base, width, digits, f) == a + b + c + d + e
  {
    hide Sign, Prefix, Numeral;
  }

  /** number: the place behind what was written, or nothing for a base out of range. */
  method Number(buffer: array<char>, at: nat, num: Long, base: nat, width: int, digits: int, flags: Flags) returns (end: Option<nat>)
    requires 2 <= base <= 36 ==> at + |Text(num, base, width, digits, flags)| <= buffer.Length
    requires !(base == 2 && Magnitude(num, flags) >= 0x4_0000_0000_0000)
    modifies buffer
    ensures 2 <= base <= 36 ==>
      var text := Text(num, base, width, digits, flags);
      end == Some(at + |text|) && Wrote(buffer, old(buffer[..]), at, text)
    ensures !(2 <= base <= 36) ==> end == None && buffer[..] == old(buffer[..])
  {
    if base < 2 || base > 36 {
      return None;
    }
    hide *;
    var f := if flags.left then flags.(zeropad := false) else flags;
    if flags.left {
      LeftIgnoresZeros(num, base, width, digits, flags);
    }
    var str := Format(buffer, at, num, base, width, digits, f);
    return Some(str);
  }

  /** number once the base is known to be good and ZEROPAD has given way to LEFT. */
  method Format(buffer: array<char>, at: nat, num: Long, base: nat, width: int, digits: int, f: Flags) returns (str: nat)
    requires 2 <= base <= 36 && !(f.left && f.zeropad) && at + |Text(num, base, width, digits, f)| <= buffer.Length
    requires !(base == 2 && Magnitude(num, f) >= 0x4_0000_0000_0000)
    modifies buffer
    ensures var text := Text(num, base, width, digits, f);
      str == at + |text| && Wrote(buffer, old(buffer[..]), at, text)
  {
    hide *;
    ghost var before := buffer[..];
    WroteNothing(buffer, at);
    MagnitudeFits(num, f);
    PiecesMakeText(num, base, width, digits, f);
    PieceSizes(num, base, width, digits, f);
    TmpIsLargeEnough(Magnitude(num, f), base, f.small);
    var tmp := new char[ROOM];
    var i := Convert(tmp, Magnitude(num, f), base, f.small);
    var precision := if i > digits then i else digits;
    str := PutPieces(buffer, at, num, base, width - |Sign(num, f)| - |Prefix(base, f)| - precision, precision, f, tmp, i,
      Digits(Magnitude(num, f), base, f.small), before, Pieces(num, base, width, digits, f));
  }

  lemma PieceSizes(num: Long, base: nat, width: int, digits: int, f: Flags)
    requires 2 <= base <= 36
    ensures var s := Digits(Magnitude(num, f), base, f.small);
      var precision := if |s| > digits then |s| else digits;
      var pad := width - |Sign(num, f)| - |Prefix(base, f)| - precision;
      Pieces(num, base, width, digits, f) == (
        if !f.zeropad && !f.left then Repeat(pad, ' ') else "",
        Sign(num, f) + Prefix(base, f),
        if f.zeropad && !f.left then Repeat(pad, '0') else "",
        Repeat(precision - |s|, '0') + s,
        if f.left then Repeat(pad, ' ') else "")
  {
    hide Sign, Prefix, Magnitude, Digits;
    RepeatNothing();
  }

  /** Padding, sign, prefix, digits and padding again, from the sizes worked out before. */
  method PutPieces(buffer: array<char>, at: nat, num: Long, base: nat, pad: int, precision: int, f: Flags, tmp: array<char>, i: nat,
      ghost s: string, ghost before: string, ghost pieces: (string, string, string, string, string)) returns (str: nat)
    requires tmp != buffer && i == |s| <= tmp.Length && (forall k :: 0 <= k < i ==> tmp[k] == s[|s| - 1 - k])
    requires precision >= i && !(f.left && f.zeropad) && Wrote(buffer, before, at, "")
    requires pieces.0 == if !f.zeropad && !f.left then Repeat(pad, ' ') else ""
    requires pieces.1 == Sign(num, f) + Prefix(base, f)
    requires pieces.2 == if f.zeropad && !f.left then Repeat(pad, '0') else ""
    requires pieces.3 == Repeat(precision - i, '0') + s
    requires pieces.4 == if f.left then Repeat(pad, ' ') else ""
    requires at + |pieces.0 + pieces.1 + pieces.2 + pieces.3 + pieces.4| <= buffer.Length
    modifies buffer
    ensures var text := pieces.0 + pieces.1 + pieces.2 + pieces.3 + pieces.4;
      str == at + |text| && Wrote(buffer, before, at, text)
  {
    hide *;
    RepeatNothing();
    ghost var (a, b, c, d, e) := pieces;
    var size := pad;
    str := at;
    if !f.zeropad && !f.left {
      str, size := Pad(buffer, str, size, ' ', before, at, "");
      assert "" + a == a;
    }
    str := PutHead(buffer, str, num, base, f, before, at, a);
    if !f.left {
      str, size := Pad(buffer, str, size, if f.zeropad then '0' else ' ', before, at, a + b);
    }
    assert a + b + "" == a + b;
    str := PutNumeral(buffer, str, tmp, i, precision, s, before, at, a + b + c);
    assert a + b + c + Repeat(precision - i, '0') + s == a + b + c + d;
    str, size := Pad(buffer, str, size, ' ', before, at, a + b + c + d);
    assert a + b + c + d + "" == a + b + c + d;
  }

  lemma RepeatNothing()
    ensures forall n, c :: n <= 0 ==> Repeat(n, c) == ""
  {
  }

  lemma LeftIgnoresZeros(num: Long, base: nat, width: int, digits: int, f: Flags)
    requires 2 <= base <= 36 && f.left
    ensures var g := f.(zeropad := false);
      Magnitude(num, f) == Magnitude(num, g) && Text(num, base, width, digits, f) == Text(num, base, width, digits, g)
  {
    assert Numeral(num, base, digits, f) == Numeral(num, base, digits, f.(zeropad := false));
  }
}
