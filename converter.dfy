/** `convert_base` (exercises/normal/solution2/src/converter.rs): read
    "digits(base)", parse the digits in that base, and write the value in
    another base with the digits 0-9a-z. */
module Converter {
  import Arith
  import Text
  import opened Wrappers

  /** Each way the source panics while reading its input. */
  datatype ConvertError =
    | NoOpenParen        // `parts[1]`: no '(' in the input
    | BadSourceBase      // `parse::<u32>().unwrap()` on the text before ')'
    | SourceBaseRange    // `from_str_radix` asserts 2 <= radix <= 36
    | BadNumber          // `expect("不是有效数字")`: not a `u32` in that base

  /** The digit text and the source base: the text before the first '(' and
      the text between it and the next ')' (or the end, or the next '('). */
  function Header(numStr: string): (r: Result<(string, nat), ConvertError>)
    ensures r.Ok? ==> '(' !in r.value.0
    ensures r.Err? ==> r.error in {NoOpenParen, BadSourceBase}
  {
    var parts := Text.Split(numStr, '(');
    if |parts| < 2 then Err(NoOpenParen)
    else
      var basePart := Text.Split(parts[1], ')')[0];
      match Text.FromStrRadix(basePart, 10)
      case None => Err(BadSourceBase)
      case Some(srcBase) => Ok((parts[0], srcBase))
  }

  /** The value the input denotes, or the reason the source panics. */
  function Value(numStr: string): (r: Result<nat, ConvertError>)
    ensures r.Ok? ==> Arith.InU32(r.value)
  {
    match Header(numStr)
    case Err(e) => Err(e)
    case Ok((number, srcBase)) =>
      if srcBase < 2 || srcBase > 36 then Err(SourceBaseRange)
      else
        match Text.FromStrRadix(number, srcBase)
        case None => Err(BadNumber)
        case Some(num) => Ok(num)
  }

  /** The text the conversion writes: "0" for zero, else the digits of
      `num` in `toBase`, most significant first. */
  function Render(num: nat, toBase: nat): (s: string)
    requires 2 <= toBase <= 36
  {
    if num == 0 then "0" else Text.DigitString(Text.ToDigits(num, toBase))
  }

  /** `convert_base`. A zero value returns "0" whatever `to_base` is; any
      other value needs `2 <= to_base <= 36` (0 divides by zero, 1 never
      ends, and above 36 the digit characters run past 'z'). */
  method ConvertBase(numStr: string, toBase: nat) returns (r: Result<string, ConvertError>)
    requires Value(numStr).Ok? && Value(numStr).value > 0 ==> 2 <= toBase <= 36
    ensures Value(numStr).Err? ==> r == Err(Value(numStr).error)
    ensures Value(numStr).Ok? && Value(numStr).value == 0 ==> r == Ok("0")
    ensures Value(numStr).Ok? && Value(numStr).value > 0 ==> r == Ok(Render(Value(numStr).value, toBase))
  {
    var v := Value(numStr);
    if v.Err? {
      return Err(v.error);
    }
    var num := v.value;
    if num == 0 {
      return Ok("0");
    }
    var text := WriteDigits(num, toBase);
    return Ok(text);
  }

  /** The conversion loop: take `n % to_base` as the next digit from the
      right, put its character in front, divide `n` by `to_base`. */
  method WriteDigits(num: nat, toBase: nat) returns (result: string)
    requires num > 0 && 2 <= toBase <= 36
    ensures result == Render(num, toBase)
  {
    result := "";
    var n: nat := num;
    while n > 0
      invariant Text.DigitString(Text.ToDigits(n, toBase)) + result
             == Text.DigitString(Text.ToDigits(num, toBase))
      decreases n
    {
      var digit := n % toBase;
      var c := if digit < 10 then ('0' as int + digit) as char else ('a' as int + digit - 10) as char;
      assert c == Text.DigitChar(digit);
      DigitStringLast(n, toBase);
      var front := Text.DigitString(Text.ToDigits(n / toBase, toBase));
      assert front + ([c] + result) == (front + [c]) + result;
      Arith.DivLess(n, toBase);
      result := [c] + result;
      n := n / toBase;
    }
    assert Text.DigitString(Text.ToDigits(0, toBase)) == "";
  }

  /** The last digit character of n is that of n % base. */
  lemma DigitStringLast(n: nat, base: nat)
    requires 2 <= base <= 36 && n > 0
    ensures Text.DigitString(Text.ToDigits(n, base))
         == Text.DigitString(Text.ToDigits(n / base, base)) + [Text.DigitChar(n % base)]
  {
  }

  /** Every character of the output is one of 0-9a-z and denotes a digit
      below `toBase`. */
  lemma RenderDigits(num: nat, toBase: nat)
    requires 2 <= toBase <= 36
    ensures forall i :: 0 <= i < |Render(num, toBase)| ==>
      var c := Render(num, toBase)[i];
      (('0' <= c <= '9') || ('a' <= c <= 'z')) && Text.CharDigit(c).Some? && Text.CharDigit(c).value < toBase
  {
    if num > 0 {
      var ds := Text.ToDigits(num, toBase);
      forall i | 0 <= i < |ds| ensures Text.DigitString(ds)[i] == Text.DigitChar(ds[i]) {
      }
    }
  }

  /** A non-zero value is written without a leading '0'. */
  lemma NoLeadingZero(num: nat, toBase: nat)
    requires 2 <= toBase <= 36 && num > 0
    ensures |Render(num, toBase)| >= 1 && Render(num, toBase)[0] != '0'
  {
    var ds := Text.ToDigits(num, toBase);
    assert Text.CharDigit(Text.DigitString(ds)[0]) == Some(ds[0]);
  }

  /** Reading the output back in `toBase` gives the value: the conversion
      loses nothing. */
  lemma RoundTrip(num: nat, toBase: nat)
    requires 2 <= toBase <= 36 && Arith.InU32(num)
    ensures Text.FromStrRadix(Render(num, toBase), toBase) == Some(num)
  {
    if num == 0 {
      assert Render(num, toBase) == Text.DigitString([0]);
      assert Text.FromDigits([0], toBase) == Text.FromDigits([], toBase) * toBase + 0;
      ParseDigits([0], toBase, 0);
    } else {
      Text.FromToDigits(num, toBase);
      ParseDigits(Text.ToDigits(num, toBase), toBase, num);
    }
  }

  /** A non-empty string of digit characters below the radix parses to the
      digits' value when that fits in 32 bits. */
  lemma ParseDigits(ds: seq<nat>, radix: nat, v: nat)
    requires 2 <= radix <= 36 && |ds| >= 1 && forall i :: 0 <= i < |ds| ==> ds[i] < radix
    requires Text.FromDigits(ds, radix) == v && Arith.InU32(v)
    ensures Text.FromStrRadix(Text.DigitString(ds), radix) == Some(v)
  {
    var s := Text.DigitString(ds);
    RadixDigitString(ds, radix);
    assert Text.CharDigit(s[0]) == Some(ds[0]);
    assert s[0] != '+';
  }

  /** Parsing digit characters gives back their digits. */
  lemma {:induction false} RadixDigitString(ds: seq<nat>, radix: nat)
    requires radix <= 36 && forall i :: 0 <= i < |ds| ==> ds[i] < radix
    ensures Text.RadixDigits(Text.DigitString(ds), radix) == Some(ds)
  {
    if |ds| > 0 {
      var s := Text.DigitString(ds);
      assert s[1..] == Text.DigitString(ds[1..]);
      RadixDigitString(ds[1..], radix);
      assert Text.CharDigit(s[0]) == Some(ds[0]);
      assert ds == [ds[0]] + ds[1..];
    }
  }
}
