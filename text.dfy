/** String operations the Rust code takes from its standard library:
    `str::split` with a char pattern, `char::to_digit`, `from_str_radix`, and
    decimal formatting with `{}` and `{:0N}`. */
module Text {
  import opened Wrappers
  import Arith

  // ---------------------------------------------------------------------
  // Splitting at a separator character
  // ---------------------------------------------------------------------

  /** The pieces of `s` between occurrences of `sep`, as `s.split(sep)`
      collects them: the empty string gives one empty piece, and a separator
      at either end gives an empty piece there. */
  function Split(s: string, sep: char): (pieces: seq<string>)
    ensures |pieces| >= 1
    ensures forall i :: 0 <= i < |pieces| ==> sep !in pieces[i]
  {
    if |s| == 0 then [""]
    else
      var rest := Split(s[1..], sep);
      if s[0] == sep then [""] + rest
      else [[s[0]] + rest[0]] + rest[1..]
  }

  /** The pieces glued back together with `sep` between neighbours. */
  function Join(pieces: seq<string>, sep: char): string
    requires |pieces| >= 1
  {
    if |pieces| == 1 then pieces[0] else pieces[0] + [sep] + Join(pieces[1..], sep)
  }

  /** How many times `c` occurs in `s`. */
  function Occurrences(s: string, c: char): nat
  {
    if |s| == 0 then 0 else (if s[0] == c then 1 else 0) + Occurrences(s[1..], c)
  }

  /** Splitting loses nothing: joining the pieces gives the input back. */
  lemma {:induction false} JoinSplit(s: string, sep: char)
    ensures Join(Split(s, sep), sep) == s
  {
    if |s| > 0 {
      JoinSplit(s[1..], sep);
      var rest := Split(s[1..], sep);
      if s[0] != sep && |rest| > 1 {
        assert Join(rest, sep) == rest[0] + [sep] + Join(rest[1..], sep);
        assert Split(s, sep)[1..] == rest[1..];
      }
    }
  }

  /** There is one piece more than there are separators. */
  lemma {:induction false} SplitCount(s: string, sep: char)
    ensures |Split(s, sep)| == Occurrences(s, sep) + 1
  {
    if |s| > 0 {
      SplitCount(s[1..], sep);
    }
  }

  /** Splitting is the inverse of joining pieces that hold no separator. */
  lemma {:induction false} SplitJoin(pieces: seq<string>, sep: char)
    requires |pieces| >= 1
    requires forall i :: 0 <= i < |pieces| ==> sep !in pieces[i]
    ensures Split(Join(pieces, sep), sep) == pieces
  {
    if |pieces| == 1 {
      SplitNoSeparator(pieces[0], sep, "");
      assert pieces[0] + "" == pieces[0];
    } else {
      SplitJoin(pieces[1..], sep);
      var tail := [sep] + Join(pieces[1..], sep);
      SplitNoSeparator(pieces[0], sep, tail);
      assert tail[1..] == Join(pieces[1..], sep);
      assert Split(tail, sep) == [""] + pieces[1..];
      assert pieces[0] + "" == pieces[0];
      assert pieces[0] + [sep] + Join(pieces[1..], sep)
          == pieces[0] + ([sep] + Join(pieces[1..], sep));
    }
  }

  /** A separator-free prefix `a` becomes the front of the first piece. */
  lemma {:induction false} SplitNoSeparator(a: string, sep: char, b: string)
    requires sep !in a
    ensures var r := Split(b, sep);
            Split(a + b, sep) == [a + r[0]] + r[1..]
  {
    if |a| > 0 {
      SplitNoSeparator(a[1..], sep, b);
      assert (a + b)[1..] == a[1..] + b;
      assert a + Split(b, sep)[0] == [a[0]] + (a[1..] + Split(b, sep)[0]);
    } else {
      var r := Split(b, sep);
      assert a + b == b;
      assert a + r[0] == r[0];
      assert [r[0]] + r[1..] == r;
    }
  }

  // ---------------------------------------------------------------------
  // Digits
  // ---------------------------------------------------------------------

  predicate IsDecimalDigit(c: char) { '0' <= c <= '9' }

  predicate AllDecimal(s: string) { forall i :: 0 <= i < |s| ==> IsDecimalDigit(s[i]) }

  /** `char::to_digit(36)`: 0-9, then a-z and A-Z for 10 to 35. */
  function CharDigit(c: char): (d: Option<nat>)
    ensures d.Some? ==> d.value < 36
    ensures d.Some? && d.value < 10 <==> IsDecimalDigit(c)
  {
    if '0' <= c <= '9' then Some(c as int - '0' as int)
    else if 'a' <= c <= 'z' then Some(c as int - 'a' as int + 10)
    else if 'A' <= c <= 'Z' then Some(c as int - 'A' as int + 10)
    else None
  }

  /** The lower-case character for a digit below 36, the one the conversion
      loop in converter.rs writes. */
  function DigitChar(d: nat): (c: char)
    requires d < 36
    ensures CharDigit(c) == Some(d)
    ensures ('0' <= c <= '9') || ('a' <= c <= 'z')
  {
    if d < 10 then ('0' as int + d) as char else ('a' as int + d - 10) as char
  }

  /** The digits of `n` in `base`, most significant first; none for zero. */
  function ToDigits(n: nat, base: nat): (ds: seq<nat>)
    requires base >= 2
    ensures forall i :: 0 <= i < |ds| ==> ds[i] < base
    ensures n > 0 <==> |ds| > 0
    ensures n > 0 ==> ds[0] != 0
  {
    if n == 0 then [] else ToDigits(n / base, base) + [n % base]
  }

  /** The value of a digit sequence, folded from the left as `acc * base + d`. */
  function FromDigits(ds: seq<nat>, base: nat): nat
  {
    if |ds| == 0 then 0 else FromDigits(ds[..|ds| - 1], base) * base + ds[|ds| - 1]
  }

  /** Reading the digits back gives the number. */
  lemma {:induction false} FromToDigits(n: nat, base: nat)
    requires base >= 2
    ensures FromDigits(ToDigits(n, base), base) == n
  {
    if n > 0 {
      var q, r := n / base, n % base;
      FromToDigits(q, base);
      var ds := ToDigits(n, base);
      ToDigitsLast(n, base);
      calc {
        FromDigits(ds, base);
        FromDigits(ToDigits(q, base), base) * base + r;
        q * base + r;
        { DivisionIdentity(n, base); }
        n;
      }
    }
  }

  lemma ToDigitsLast(n: nat, base: nat)
    requires base >= 2 && n > 0
    ensures var ds := ToDigits(n, base);
            ds[..|ds| - 1] == ToDigits(n / base, base) && ds[|ds| - 1] == n % base
  {
  }

  lemma DivisionIdentity(n: nat, base: nat)
    requires base >= 2
    ensures n == (n / base) * base + n % base
  {
  }

  /** Digits below 36 written as characters. */
  function DigitString(ds: seq<nat>): (s: string)
    requires forall i :: 0 <= i < |ds| ==> ds[i] < 36
    ensures |s| == |ds|
    ensures forall i :: 0 <= i < |s| ==> CharDigit(s[i]) == Some(ds[i])
  {
    seq(|ds|, i requires 0 <= i < |ds| => DigitChar(ds[i]))
  }

  /** Decimal text of a natural number, as `{}` prints it. */
  function FormatNat(n: nat): (s: string)
    ensures |s| >= 1 && AllDecimal(s)
    ensures |s| > 1 ==> s[0] != '0'
  {
    if n == 0 then "0"
    else
      var ds := ToDigits(n, 10);
      var s := DigitString(ds);
      assert forall i :: 0 <= i < |s| ==> CharDigit(s[i]).value < 10;
      s
  }

  /** The value of a string of decimal digits, folded from the left as
      `acc * 10 + (byte - b'0')`. */
  function ParseDecimal(s: string): (n: nat)
    requires AllDecimal(s)
    ensures n < Pow10(|s|)
  {
    if |s| == 0 then 0
    else
      var high := ParseDecimal(s[..|s| - 1]);
      var d := s[|s| - 1] as int - '0' as int;
      AppendDigitBound(high, d, Pow10(|s| - 1));
      high * 10 + d
  }

  /** 10^k. */
  function Pow10(k: nat): nat
  {
    if k == 0 then 1 else 10 * Pow10(k - 1)
  }

  /** A number below b with one more digit appended stays below 10b. */
  lemma AppendDigitBound(high: int, d: int, b: int)
    requires 0 <= high < b && 0 <= d < 10
    ensures high * 10 + d < b * 10
  {
  }

  /** Parsing digit characters is reading their digit values. */
  lemma {:induction false} ParseDigitString(ds: seq<nat>)
    requires forall i :: 0 <= i < |ds| ==> ds[i] < 10
    ensures AllDecimal(DigitString(ds))
    ensures ParseDecimal(DigitString(ds)) == FromDigits(ds, 10)
  {
    if |ds| > 0 {
      var s := DigitString(ds);
      assert s[..|s| - 1] == DigitString(ds[..|ds| - 1]);
      ParseDigitString(ds[..|ds| - 1]);
    }
  }

  /** Formatting and parsing are inverse. */
  lemma ParseFormat(n: nat)
    ensures ParseDecimal(FormatNat(n)) == n
  {
    if n > 0 {
      ParseDigitString(ToDigits(n, 10));
      FromToDigits(n, 10);
    }
  }

  /** Zeros in front of `s` up to `width` characters, as `{:0width}` pads. */
  function PadZeros(s: string, width: nat): (r: string)
    ensures |r| == if |s| >= width then |s| else width
    ensures r[|r| - |s|..] == s
    ensures forall i :: 0 <= i < |r| - |s| ==> r[i] == '0'
  {
    if |s| >= width then s else seq(width - |s|, _ => '0') + s
  }

  /** Leading zeros do not change the value of a decimal string. */
  lemma {:induction false} ParsePadded(s: string, width: nat)
    requires AllDecimal(s)
    ensures AllDecimal(PadZeros(s, width))
    ensures ParseDecimal(PadZeros(s, width)) == ParseDecimal(s)
  {
    if |s| < width {
      LeadingZeros(width - |s|, s);
    }
  }

  lemma {:induction false} LeadingZeros(k: nat, s: string)
    requires AllDecimal(s)
    ensures AllDecimal(seq(k, _ => '0') + s)
    ensures ParseDecimal(seq(k, _ => '0') + s) == ParseDecimal(s)
  {
    var z := seq(k, _ => '0');
    if |s| == 0 {
      assert z + s == z;
      ZerosParse(k);
    } else {
      var t := z + s;
      assert t[..|t| - 1] == z + s[..|s| - 1];
      LeadingZeros(k, s[..|s| - 1]);
    }
  }

  lemma {:induction false} ZerosParse(k: nat)
    ensures AllDecimal(seq(k, _ => '0'))
    ensures ParseDecimal(seq(k, _ => '0')) == 0
  {
    if k > 0 {
      var z := seq(k, _ => '0');
      assert z[..k - 1] == seq(k - 1, _ => '0');
      ZerosParse(k - 1);
    }
  }

  /** Rust's `{:0width}` for an integer: the sign, then zeros, then the
      digits, `width` characters in all unless the number is longer. */
  function FormatPadded(n: int, width: nat): (s: string)
    ensures n >= 0 ==> AllDecimal(s) && ParseDecimal(s) == n && |s| >= width
    ensures n < 0 ==> |s| >= 1 && s[0] == '-' && AllDecimal(s[1..]) && ParseDecimal(s[1..]) == -n
  {
    if n >= 0 then
      ParseFormat(n);
      ParsePadded(FormatNat(n), width);
      PadZeros(FormatNat(n), width)
    else
      ParseFormat(-n);
      var w := if width > 0 then width - 1 else 0;
      ParsePadded(FormatNat(-n), w);
      var s := "-" + PadZeros(FormatNat(-n), w);
      assert s[1..] == PadZeros(FormatNat(-n), w);
      s
  }

  // ---------------------------------------------------------------------
  // Parsing in a radix (`u32::from_str_radix`, `str::parse::<u32>`)
  // ---------------------------------------------------------------------

  /** The digit values of `s` in `radix`, or None at the first character
      that is not a digit of that radix. */
  function RadixDigits(s: string, radix: nat): (ds: Option<seq<nat>>)
    ensures ds.Some? ==> |ds.value| == |s| && forall i :: 0 <= i < |s| ==> ds.value[i] < radix
    ensures ds.Some? <==> forall i :: 0 <= i < |s| ==> CharDigit(s[i]).Some? && CharDigit(s[i]).value < radix
  {
    if |s| == 0 then Some([])
    else
      var d := CharDigit(s[0]);
      var rest := RadixDigits(s[1..], radix);
      if d.None? || d.value >= radix || rest.None? then
        assert d.Some? && d.value < radix && rest.None? ==>
          exists i :: 1 <= i < |s| && !(CharDigit(s[i]).Some? && CharDigit(s[i]).value < radix) by {
          if d.Some? && d.value < radix && rest.None? {
            var j :| 0 <= j < |s[1..]| && !(CharDigit(s[1..][j]).Some? && CharDigit(s[1..][j]).value < radix);
            assert s[1..][j] == s[j + 1];
          }
        }
        None
      else Some([d.value] + rest.value)
  }

  /** `u32::from_str_radix(s, radix)` for `2 <= radix <= 36`: an optional `+`
      (a lone sign is refused), then at least one digit of the radix, upper or
      lower case, and a value that fits in 32 bits. */
  function FromStrRadix(s: string, radix: nat): (r: Option<nat>)
    requires 2 <= radix <= 36
    ensures r.Some? ==> Arith.InU32(r.value)
  {
    var digits := if |s| > 1 && s[0] == '+' then s[1..] else s;
    if |digits| == 0 then None
    else
      match RadixDigits(digits, radix)
      case None => None
      case Some(ds) =>
        var v := FromDigits(ds, radix);
        if v <= Arith.U32_MAX then Some(v) else None
  }

  /** A string of decimal digits parses in radix 10 to the value the left
      fold gives, provided it is non-empty and fits in 32 bits. */
  lemma {:induction false} FromStrRadixDecimal(s: string)
    requires AllDecimal(s) && |s| >= 1 && ParseDecimal(s) <= Arith.U32_MAX
    ensures FromStrRadix(s, 10) == Some(ParseDecimal(s))
  {
    assert s[0] != '+';
    DecimalRadixDigits(s);
  }

  lemma {:induction false} DecimalRadixDigits(s: string)
    requires AllDecimal(s)
    ensures RadixDigits(s, 10).Some?
    ensures FromDigits(RadixDigits(s, 10).value, 10) == ParseDecimal(s)
  {
    if |s| > 0 {
      DecimalRadixDigits(s[..|s| - 1]);
      var ds := RadixDigits(s, 10).value;
      RadixDigitsPrefix(s, 10);
      assert ds[..|ds| - 1] == RadixDigits(s[..|s| - 1], 10).value;
    }
  }

  lemma {:induction false} RadixDigitsPrefix(s: string, radix: nat)
    requires |s| > 0 && RadixDigits(s, radix).Some?
    ensures RadixDigits(s[..|s| - 1], radix).Some?
    ensures RadixDigits(s, radix).value
         == RadixDigits(s[..|s| - 1], radix).value + [CharDigit(s[|s| - 1]).value]
  {
    if |s| > 1 {
      RadixDigitsPrefix(s[1..], radix);
      assert s[1..][..|s[1..]| - 1] == s[..|s| - 1][1..];
    }
  }
}
