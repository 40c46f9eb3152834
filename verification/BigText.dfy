/** Reading limbed integers from digits, and writing them from the end. */
module BigTexts {
  import opened Words
  import opened Limbs
  import opened BigNumbers
  import opened BigProducts
  import opened BigDivision

  datatype BigIntError = TooLarge | Malformed

  const UNDERSCORE: byte := 0x5F
  const MINUS: byte := 0x2D

  predicate IsRadix(radix: nat) { 2 <= radix <= 36 }

  // ----- reading -----

  /** The digit a character stands for, or nothing. */
  function DigitOf(b: byte): Option<u32> {
    if 0x30 <= b <= 0x39 then Some(b - 0x30)
    else if 0x61 <= b <= 0x7A then Some(b - 0x61 + 10)
    else if 0x41 <= b <= 0x5A then Some(b - 0x41 + 10)
    else None
  }

  const DIGITS := "0123456789abcdefghijklmnopqrstuvwxyz"
  const CAPITALS := "0123456789ABCDEFGHIJKLMNOPQRSTUVWXYZ"

  lemma Small(d: nat)
    requires d < 36
    ensures DIGITS[d] as int == if d < 10 then 0x30 + d else 0x61 + d - 10
  {}

  lemma Capital(d: nat)
    requires d < 36
    ensures CAPITALS[d] as int == if d < 10 then 0x30 + d else 0x41 + d - 10
  {}

  /** A digit is read from its character of either case, and from no other. */
  lemma DigitIs(b: byte, d: u32)
    ensures DigitOf(b) == Some(d) <==> d < 36 && (b == DIGITS[d] as int || b == CAPITALS[d] as int)
  {
    if d < 36 {
      Small(d);
      Capital(d);
    }
    hide DIGITS, CAPITALS;
  }

  predicate Admits(radix: nat, b: byte) {
    b == UNDERSCORE || (DigitOf(b).Some? && DigitOf(b).value < radix)
  }

  function Appended(n: nat, radix: nat, digit: nat): nat { n * radix + digit }

  /** The number a numeral denotes, separators skipped. */
  function Numeral(text: seq<byte>, radix: nat): nat {
    if text == [] then 0
    else
      var front, b := Numeral(text[..|text| - 1], radix), text[|text| - 1];
      if b == UNDERSCORE || DigitOf(b).None? then front else Appended(front, radix, DigitOf(b).value)
  }

  /** A numeral denotes at least what any beginning of it does. */
  lemma {:induction false} NumeralGrows(text: seq<byte>, radix: nat, k: nat)
    requires k <= |text| && radix >= 1
    ensures Numeral(text[..k], radix) <= Numeral(text, radix)
    decreases |text|
  {
    if k == |text| {
      assert text[..k] == text;
    } else {
      var front := text[..|text| - 1];
      NumeralGrows(front, radix, k);
      assert front[..k] == text[..k];
      AtLeastOne(radix, Numeral(front, radix));
    }
  }

  lemma NumeralNext(text: seq<byte>, radix: nat, k: nat)
    requires k < |text| && Admits(radix, text[k])
    ensures Numeral(text[..k + 1], radix)
         == if text[k] == UNDERSCORE then Numeral(text[..k], radix) else Appended(Numeral(text[..k], radix), radix, DigitOf(text[k]).value)
  {
    assert text[..k + 1][..k] == text[..k];
  }

  lemma NumeralAppend(text: seq<byte>, b: byte, radix: nat)
    requires b != UNDERSCORE && DigitOf(b).Some?
    ensures Numeral(text + [b], radix) == Appended(Numeral(text, radix), radix, DigitOf(b).value)
  {
    assert (text + [b])[..|text|] == text;
  }

  /** What does not fit without the next digit does not fit with it. */
  lemma TooLargeStill(n: nat, radix: nat, digit: nat)
    ensures Appended(n, radix, digit) == n * radix + digit
    ensures Fits(Appended(n, radix, digit)) ==> Fits(n * radix)
  {
    hide Base;
    assert n * radix >= 0;
  }

  /** A number read digit by digit. */
  class Accumulator {
    var value: Number
    const radix: u32
    var digits: nat

    constructor (radix: u32)
      ensures this.radix == radix && Valid() && Size(value) == 0 && digits == 0
    {
      this.radix, value, digits := radix, ZERO, 0;
      new;
      LowStart(ZERO, ZERO);
    }

    ghost predicate Valid()
      reads this
    {
      Trimmed(value) && !value.negative
    }

    /** Take one character: a separator counts as no digit, and what the radix does
        not admit, or the limbs cannot hold, is refused. */
    method Push(b: byte) returns (error: Option<BigIntError>)
      requires Valid()
      modifies this
      ensures error == Some(Malformed) <==> !IsRadix(radix) || !Admits(radix, b)
      ensures error == Some(TooLarge) <==>
        IsRadix(radix) && Admits(radix, b) && b != UNDERSCORE && !Fits(Appended(old(Size(value)), radix, DigitOf(b).value))
      ensures error.None? ==> Valid()
      ensures error.None? ==> Size(value) == if b == UNDERSCORE then old(Size(value)) else Appended(old(Size(value)), radix, DigitOf(b).value)
      ensures error.None? ==> digits == old(digits) + if b == UNDERSCORE then 0 else 1
    {
      hide Low, Base, Fits, Appended;
      if !(2 <= radix <= 36) { return Some(Malformed); }
      if b == UNDERSCORE { return None; }
      if DigitOf(b).None? { return Some(Malformed); }
      var digit := DigitOf(b).value;
      if digit >= radix { return Some(Malformed); }
      TooLargeStill(Size(value), radix, digit);
      var ok;
      value, ok := MultiplySmall(value, radix);
      if !ok { return Some(TooLarge); }
      value, ok := AddSmall(value, digit);
      if !ok { return Some(TooLarge); }
      digits := digits + 1;
      return None;
    }

    /** The characters taken so far denote the value. */
    ghost predicate Has(text: seq<byte>)
      reads this
    {
      Valid() && Size(value) == Numeral(text, radix)
    }

    /** Take character `index` of a text whose earlier ones have been taken. */
    method Take(text: seq<byte>, index: nat) returns (error: Option<BigIntError>)
      requires index < |text| && Has(text[..index]) && IsRadix(radix)
      modifies this
      ensures error == Some(Malformed) ==> !Admits(radix, text[index])
      ensures error == Some(TooLarge) ==> !Fits(Numeral(text, radix))
      ensures error.None? ==> Has(text[..index + 1]) && Admits(radix, text[index])
    {
      hide Low, Base, Numeral, DigitOf, Appended;
      if Admits(radix, text[index]) { NumeralNext(text, radix, index); }
      NumeralGrows(text, radix, index + 1);
      error := Push(text[index]);
    }

    method FinishSigned(negative: bool) returns (r: Number)
      requires Valid()
      ensures Trimmed(r) && Size(r) == Size(value) && Int(r) == if negative then 0 - Size(value) else Size(value)
    {
      SignedInt(value, negative);
      r := Trim(value.(negative := negative && value.length != 0));
    }
  }

  ghost predicate Wellformed(text: seq<byte>, radix: nat) {
    IsRadix(radix) && forall i :: 0 <= i < |text| ==> Admits(radix, text[i])
  }

  /** A numeral is written in the digits of its radix, of either case, and separators. */
  lemma WellformedIs(text: seq<byte>, radix: nat)
    ensures Wellformed(text, radix) <==>
      && 2 <= radix <= 36
      && forall i :: 0 <= i < |text| ==>
           text[i] == '_' as int
           || exists d: u32 :: d < radix && d < 36 && (text[i] == DIGITS[d] as int || text[i] == CAPITALS[d] as int)
  {
    if 2 <= radix <= 36 {
      forall i | 0 <= i < |text|
        ensures Admits(radix, text[i]) <==>
          (text[i] == '_' as int
           || exists d: u32 :: d < radix && d < 36 && (text[i] == DIGITS[d] as int || text[i] == CAPITALS[d] as int))
      {
        AdmitsIs(text[i], radix);
      }
    }
  }

  lemma AdmitsIs(b: byte, radix: nat)
    requires 2 <= radix <= 36
    ensures Admits(radix, b) <==>
      b == '_' as int || exists d: u32 :: d < radix && d < 36 && (b == DIGITS[d] as int || b == CAPITALS[d] as int)
  {
    forall d: u32 | d < radix && d < 36
      ensures DigitOf(b) == Some(d) <==> (b == DIGITS[d] as int || b == CAPITALS[d] as int)
    {
      DigitIs(b, d);
    }
    if DigitOf(b).Some? && DigitOf(b).value < radix { DigitIs(b, DigitOf(b).value); }
    hide DIGITS, CAPITALS, DigitOf;
  }

  /** Reading accepts exactly the numerals that fit, and gives their value. */
  method FromDigits(text: seq<byte>, radix: u32, negative: bool) returns (r: Result<Number, BigIntError>)
    ensures r == Err(Malformed) ==> !Wellformed(text, radix)
    ensures r.Ok? <==> Wellformed(text, radix) && Fits(Numeral(text, radix))
    ensures r.Ok? ==> Trimmed(r.value) && Int(r.value) == if negative then 0 - Numeral(text, radix) else Numeral(text, radix)
  {
    hide Low, Base, Numeral, DigitOf, Appended;
    if !(2 <= radix <= 36) { return Err(Malformed); }
    var accumulator := new Accumulator(radix);
    NoDigits(radix, 0);
    var index := 0;
    assert text[..0] == [];
    while index < |text|
      invariant 0 <= index <= |text| && accumulator.radix == radix && fresh(accumulator) && accumulator.Has(text[..index])
      invariant forall i :: 0 <= i < index ==> Admits(radix, text[i])
    {
      var error := accumulator.Take(text, index);
      if error.Some? {
        assert error.value.TooLarge? || error.value.Malformed?;
        assert error == Some(Malformed) ==> !Wellformed(text, radix);
        return Err(error.value);
      }
      index := index + 1;
    }
    assert text[..index] == text;
    SizeFits(accumulator.value);
    var value := accumulator.FinishSigned(negative);
    return Ok(value);
  }

  // ----- writing -----

  function DigitChar(d: nat): (b: byte)
    requires d < 36
    ensures b != UNDERSCORE && DigitOf(b) == Some(d)
  {
    if d < 10 then 0x30 + d else 0x61 + (d - 10)
  }

  /** Digits are written small. */
  lemma WrittenSmall(d: nat)
    requires d < 36
    ensures DigitChar(d) == DIGITS[d] as int
  {
    Small(d);
    hide DIGITS;
  }

  /** A number's digits as they are written, from the left. */
  function TextOf(n: nat, radix: nat): (t: seq<byte>)
    requires IsRadix(radix)
    ensures t != []
    decreases n
  {
    if n < radix then [DigitChar(n)]
    else
      FewerDigits(n, radix);
      TextOf(n / radix, radix) + [DigitChar(n % radix)]
  }

  lemma FewerDigits(n: nat, radix: nat)
    requires 2 <= radix <= n
    ensures 0 < n / radix < n && 0 <= n % radix < radix && n == n / radix * radix + n % radix
  {
    var q: int, r: int := n / radix, n % radix;
    assert n == radix * q + r;
    assert q <= 0 ==> radix * q <= 0;
    assert q >= 1 ==> (radix - 2) * q >= 0;
  }

  function Signed(negative: bool, text: seq<byte>): seq<byte> { if negative then [MINUS] + text else text }

  /** A number's text, given out back to front. */
  class TextFromEnd {
    var magnitude: Number
    const radix: u32
    const negative: bool
    var remaining: nat

    ghost predicate Valid()
      reads this
    {
      && IsRadix(radix) && Trimmed(magnitude) && !magnitude.negative
      && |Left()| == remaining
    }

    /** The digits still to come. */
    ghost function Left(): seq<byte>
      requires IsRadix(radix) && Trimmed(magnitude)
      reads this
    {
      if remaining == 0 then [] else TextOf(Size(magnitude), radix)
    }

    constructor (value: Number, radix: u32)
      requires Trimmed(value) && IsRadix(radix)
      ensures Valid() && this.radix == radix && negative == value.negative && Left() == TextOf(Size(value), radix)
    {
      hide Low, Base;
      LengthOf(value);
      var count := value.(negative := false);
      var digits := 0;
      if count.length == 0 { digits := 1; }
      this.magnitude, this.radix, this.negative := value.(negative := false), radix, value.negative && value.length != 0;
      ghost var before := digits;
      while count.length != 0
        invariant Trimmed(count) && !count.negative && Size(count) >= 0 && 0 <= digits
        invariant Counts(Size(value), radix, Size(count), digits)
        decreases Size(count)
      {
        LengthOf(count);
        ghost var n := Size(count);
        var remainder;
        count, remainder := DivideSmall(count, radix);
        OneDigitLess(Size(value), radix, n, digits, Size(count), remainder);
        digits := digits + 1;
      }
      LengthOf(count);
      this.remaining := digits;
    }

    /** How long the text is, with its sign. */
    function Length(): nat
      reads this
    {
      remaining + if negative then 1 else 0
    }

    /** Give out the last character not given out yet. */
    method NextChar() returns (b: byte)
      requires Valid()
      modifies this
      ensures Valid()
      ensures old(remaining) == 0 ==> b == (if negative then MINUS else 0x30) && remaining == 0
      ensures old(remaining) > 0 ==> remaining == old(remaining) - 1 && old(Left()) == Left() + [b]
    {
      hide Low, Base;
      if remaining == 0 { return if negative then MINUS else 0x30; }
      remaining := remaining - 1;
      var digit;
      ghost var n := Size(magnitude);
      magnitude, digit := DivideSmall(magnitude, radix);
      DigitTaken(n, radix, Size(magnitude), digit);
      b := if digit < 10 then 0x30 + digit else 0x61 + (digit - 10);
    }
  }

  /** `digits` digits of `n` have been counted off, leaving `rest`. */
  ghost predicate Counts(n: nat, radix: nat, rest: nat, digits: nat) {
    IsRadix(radix) && |TextOf(n, radix)| == digits + if rest == 0 then 0 else |TextOf(rest, radix)|
  }

  lemma OneDigitLess(n: nat, radix: nat, count: nat, digits: nat, quotient: nat, remainder: nat)
    requires Counts(n, radix, count, digits) && count > 0 && count == quotient * radix + remainder && remainder < radix
    ensures Counts(n, radix, quotient, digits + 1) && quotient < count
  {
    DigitTaken(count, radix, quotient, remainder);
  }

  /** Dividing once takes the last digit off. */
  lemma DigitTaken(n: nat, radix: nat, quotient: nat, remainder: nat)
    requires IsRadix(radix) && n == quotient * radix + remainder && remainder < radix
    ensures TextOf(n, radix) == (if quotient == 0 then [] else TextOf(quotient, radix)) + [DigitChar(remainder)]
    ensures n > 0 ==> quotient < n
    ensures |TextOf(n, radix)| == 1 <==> quotient == 0
  {
    DivisionUnique(n, radix, quotient, remainder);
    AtLeastOne(radix, quotient);
    if quotient > 0 { AtLeastOne(quotient, radix); }
    if n > 0 && quotient > 0 { assert quotient * radix >= quotient * 2; }
  }

  /** The whole text, filled from its end. */
  method Render(value: Number, radix: u32) returns (text: seq<byte>)
    requires Trimmed(value) && IsRadix(radix)
    ensures text == Signed(value.negative, TextOf(Size(value), radix))
  {
    hide TextOf, Filled;
    var source := new TextFromEnd(value, radix);
    ghost var digits := source.Left();
    var length := source.Length();
    text := [];
    FilledStarts(digits, value.negative);
    while |text| < length
      invariant source.Valid() && fresh(source) && source.negative == value.negative
      invariant length == |digits| + (if value.negative then 1 else 0) && |text| <= length
      invariant source.remaining == Max(0, |digits| - |text|) && Filled(text, source.Left(), digits, value.negative)
      decreases length - |text|
    {
      ghost var before := source.Left();
      var b := source.NextChar();
      FilledNext(text, before, digits, value.negative, b, source.Left());
      text := [b] + text;
    }
    FilledAll(text, source.Left(), digits, value.negative);
  }

  /** What has been filled in, and what is left, make up the text. */
  ghost predicate Filled(text: seq<byte>, left: seq<byte>, digits: seq<byte>, negative: bool) {
    && (|text| <= |digits| ==> left + text == digits)
    && (|text| > |digits| ==> text == Signed(negative, digits))
  }

  lemma FilledStarts(digits: seq<byte>, negative: bool)
    ensures Filled([], digits, digits, negative)
  {}

  lemma FilledNext(text: seq<byte>, left: seq<byte>, digits: seq<byte>, negative: bool, b: byte, left': seq<byte>)
    requires Filled(text, left, digits, negative)
    requires |text| < |digits| ==> left == left' + [b]
    requires |text| >= |digits| ==> |text| == |digits| && negative && b == MINUS
    ensures Filled([b] + text, left', digits, negative)
  {
    if |text| < |digits| { assert left' + [b] + text == left' + ([b] + text); }
  }

  lemma FilledAll(text: seq<byte>, left: seq<byte>, digits: seq<byte>, negative: bool)
    requires Filled(text, left, digits, negative) && |text| == |digits| + if negative then 1 else 0
    ensures text == Signed(negative, digits)
  {}

  // ----- reading what was written -----

  /** The digits written denote the number they were written from. */
  lemma {:induction false} WrittenDenotes(n: nat, radix: nat)
    requires IsRadix(radix)
    ensures Wellformed(TextOf(n, radix), radix) && Numeral(TextOf(n, radix), radix) == n
    decreases n
  {
    hide TextOf, Numeral, DigitOf, DigitChar, Appended;
    LastDigit(n, radix);
    if n < radix {
      NumeralAppend([], DigitChar(n), radix);
    } else {
      FewerDigits(n, radix);
      WrittenDenotes(n / radix, radix);
      NumeralAppend(TextOf(n / radix, radix), DigitChar(n % radix), radix);
      AppendedBack(n, radix);
    }
    NoDigits(radix, n);
  }

  lemma LastDigit(n: nat, radix: nat)
    requires IsRadix(radix)
    ensures n < radix ==> TextOf(n, radix) == [] + [DigitChar(n)]
    ensures n >= radix ==> 0 <= n / radix && TextOf(n, radix) == TextOf(n / radix, radix) + [DigitChar(n % radix)]
  {
    if n >= radix { FewerDigits(n, radix); }
  }

  lemma AppendedBack(n: nat, radix: nat)
    requires 2 <= radix <= n
    ensures 0 <= n / radix && Appended(n / radix, radix, n % radix) == n
  {
    FewerDigits(n, radix);
  }

  lemma NoDigits(radix: nat, n: nat)
    ensures Numeral([], radix) == 0 && Appended(0, radix, n) == n
  {}

  /** Printing and reading back gives the same value, in every radix. */
  method PrintAndRead(value: Number, radix: u32) returns (back: Number)
    requires Trimmed(value) && IsRadix(radix)
    ensures back == value
  {
    hide Low, Base, TextOf, Numeral, Wellformed;
    var text := Render(value, radix);
    WrittenDenotes(Size(value), radix);
    SizeFits(value);
    var digits := if value.negative then text[1..] else text;
    assert digits == TextOf(Size(value), radix);
    var r := FromDigits(digits, radix, value.negative);
    IntUnique(r.value, value);
    back := r.value;
  }
}
