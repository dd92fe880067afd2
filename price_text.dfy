/**
 * `price_conversion`: keep the part of a price string before its first '.',
 * then delete every character that is not an ASCII digit.
 */
module PriceText {
  import opened Decimal

  /** `s.split(".")[0]`: the longest prefix of s that holds no '.'. */
  function BeforeFirstDot(s: string): (r: string)
    ensures |r| <= |s| && r == s[..|r|]
    ensures '.' !in r
    ensures |r| == |s| || s[|r|] == '.'
  {
    if s == [] || s[0] == '.' then [] else [s[0]] + BeforeFirstDot(s[1..])
  }

  /** `re.sub("[^0-9]", "", s)`: the ASCII digits of s, in their order. */
  function KeepDigits(s: string): string
  {
    if s == [] then []
    else if IsDigit(s[0]) then [s[0]] + KeepDigits(s[1..])
    else KeepDigits(s[1..])
  }

  function PriceConversion(price: string): (r: string)
    ensures AllDigits(r)
    ensures '.' !in r
  {
    KeepDigitsFacts(BeforeFirstDot(price));
    KeepDigits(BeforeFirstDot(price))
  }

  /** Only digits survive, and nothing is added. */
  lemma {:induction false} KeepDigitsFacts(s: string)
    ensures AllDigits(KeepDigits(s))
    ensures |KeepDigits(s)| <= |s|
  {
    if s != [] {
      KeepDigitsFacts(s[1..]);
    }
  }

  /** Digit filtering keeps order: it distributes over concatenation. */
  lemma {:induction false} KeepDigitsConcat(a: string, b: string)
    ensures KeepDigits(a + b) == KeepDigits(a) + KeepDigits(b)
  {
    if a == [] {
      assert a + b == b;
    } else {
      assert (a + b)[1..] == a[1..] + b;
      KeepDigitsConcat(a[1..], b);
    }
  }

  /** Every digit occurs in the result as often as in the input; nothing else occurs. */
  lemma {:induction false} KeepDigitsCounts(s: string, c: char)
    ensures multiset(KeepDigits(s))[c] == if IsDigit(c) then multiset(s)[c] else 0
  {
    if s != [] {
      KeepDigitsCounts(s[1..], c);
      assert s == [s[0]] + s[1..];
    }
  }

  /** A string of digits passes through unchanged. */
  lemma {:induction false} KeepDigitsOfDigits(s: string)
    requires AllDigits(s)
    ensures KeepDigits(s) == s
  {
    if s != [] {
      KeepDigitsOfDigits(s[1..]);
    }
  }

  /**
   * The result is the digits of s[..k], where k is the position of the first
   * '.' (or |s| when there is none).
   */
  lemma PriceConversionUpToDot(s: string, k: nat)
    requires k <= |s| && '.' !in s[..k]
    requires k == |s| || s[k] == '.'
    ensures PriceConversion(s) == KeepDigits(s[..k])
  {
  }

  /** Applying the conversion twice changes nothing. */
  lemma PriceConversionIdempotent(s: string)
    ensures PriceConversion(PriceConversion(s)) == PriceConversion(s)
  {
    var r := PriceConversion(s);
    PriceConversionUpToDot(r, |r|);
    assert r[..|r|] == r;
    KeepDigitsOfDigits(r);
  }

  /** A price that starts with '.' converts to the empty string. */
  lemma PriceConversionLeadingDot(s: string)
    requires |s| > 0 && s[0] == '.'
    ensures PriceConversion(s) == ""
  {
  }

  /** Whatever follows the first '.' has no effect on the result. */
  lemma PriceConversionSplit(head: string, rest: string)
    requires '.' !in head
    ensures PriceConversion(head + "." + rest) == KeepDigits(head)
  {
    var s := head + "." + rest;
    assert s[..|head|] == head;
    PriceConversionUpToDot(s, |head|);
  }

  /** The first example of the doc comment. */
  lemma PriceConversionApostrophe(s: string)
    requires s == "5'990.00 руб."
    ensures PriceConversion(s) == "5990"
  {
    assert s == "5'990" + "." + "00 руб.";
    PriceConversionSplit("5'990", "00 руб.");
    KeepDigitsConcat("5'", "990");
  }

  /** A string without digits filters to nothing. */
  lemma {:induction false} KeepDigitsNone(s: string)
    requires forall i :: 0 <= i < |s| ==> !IsDigit(s[i])
    ensures KeepDigits(s) == []
  {
    if s != [] {
      KeepDigitsNone(s[1..]);
    }
  }

  /**
   * A comma is not a decimal separator here: it is stripped like any other
   * non-digit, so digits after a comma stay in the result.
   */
  lemma PriceConversionKeepsCommaCents(units: string, cents: string, suffix: string, rest: string)
    requires '.' !in units && AllDigits(cents)
    requires forall i :: 0 <= i < |suffix| ==> !IsDigit(suffix[i]) && suffix[i] != '.'
    ensures PriceConversion(units + "," + cents + suffix + "." + rest) == KeepDigits(units) + cents
  {
    var withComma := units + ",";
    var amount := withComma + cents;
    var head := amount + suffix;
    assert '.' !in suffix;
    assert '.' !in head;
    PriceConversionSplit(head, rest);
    var digits := KeepDigits(units);
    assert KeepDigits(withComma) == digits by {
      KeepDigitsConcat(units, ",");
      assert KeepDigits(",") == [];
      assert digits + [] == digits;
    }
    assert KeepDigits(amount) == digits + cents by {
      KeepDigitsConcat(withComma, cents);
      KeepDigitsOfDigits(cents);
    }
    assert KeepDigits(head) == digits + cents by {
      KeepDigitsConcat(amount, suffix);
      KeepDigitsNone(suffix);
      assert digits + cents + [] == digits + cents;
    }
  }

  /** The second example of the doc comment, as the code computes it. */
  lemma PriceConversionComma(s: string)
    requires s == "12 345,00 руб."
    ensures PriceConversion(s) == "1234500"
  {
    assert s == "12 345" + "," + "00" + " руб" + "." + "";
    PriceConversionKeepsCommaCents("12 345", "00", " руб", "");
    assert KeepDigits("12 345") == "12345";
  }
}
