/** Digit characters and positional values, shared by the hexadecimal
    helper, the sscanf conversions and atoi. */
module Numerals {

  predicate IsDecDigit(c: char) {
    '0' <= c <= '9'
  }

  predicate IsHexDigit(c: char) {
    '0' <= c <= '9' || 'a' <= c <= 'f' || 'A' <= c <= 'F'
  }

  /** The value of one hexadecimal digit; 'a'..'f' and 'A'..'F' both mean 10..15. */
  function DigitValue(c: char): (d: nat)
    requires IsHexDigit(c)
    ensures d < 16
    ensures IsDecDigit(c) <==> d < 10
  {
    if '0' <= c <= '9' then c as int - '0' as int
    else if 'a' <= c <= 'f' then c as int - 'a' as int + 10
    else c as int - 'A' as int + 10
  }

  /** The values of the hexadecimal digits of s, in order; every other
      character is dropped. */
  function HexDigits(s: string): seq<nat> {
    if s == [] then []
    else (if IsHexDigit(s[0]) then [DigitValue(s[0])] else []) + HexDigits(s[1..])
  }

  /** The number written by the digit values ds in the given base, most
      significant first. */
  function Value(ds: seq<nat>, base: nat): nat {
    Horner(0, ds, base)
  }

  /** acc followed by the digits ds. */
  function Horner(acc: nat, ds: seq<nat>, base: nat): nat
    decreases ds
  {
    if ds == [] then acc else Horner(acc * base + ds[0], ds[1..], base)
  }

  lemma {:induction false} HornerSnoc(acc: nat, ds: seq<nat>, d: nat, base: nat)
    ensures Horner(acc, ds + [d], base) == Horner(acc, ds, base) * base + d
    decreases ds
  {
    if ds != [] {
      assert (ds + [d])[1..] == ds[1..] + [d];
      HornerSnoc(acc * base + ds[0], ds[1..], d, base);
    }
  }

  /** Appending a digit shifts the value by one place. */
  lemma ValueSnoc(ds: seq<nat>, d: nat, base: nat)
    ensures Value(ds + [d], base) == Value(ds, base) * base + d
  {
    HornerSnoc(0, ds, d, base);
  }

  lemma {:induction false} HexDigitsAppend(a: string, b: string)
    ensures HexDigits(a + b) == HexDigits(a) + HexDigits(b)
  {
    if a == [] {
      assert a + b == b;
    } else {
      assert (a + b)[1..] == a[1..] + b;
      HexDigitsAppend(a[1..], b);
    }
  }

  lemma HexDigitsSnoc(s: string, c: char)
    ensures HexDigits(s + [c]) == HexDigits(s) + (if IsHexDigit(c) then [DigitValue(c)] else [])
  {
    HexDigitsAppend(s, [c]);
    assert [c][1..] == [];
  }

  /** A string of digits only keeps all of them, in order. */
  lemma {:induction false} HexDigitsOfDigits(s: string)
    requires forall i :: 0 <= i < |s| ==> IsHexDigit(s[i])
    ensures |HexDigits(s)| == |s|
    ensures forall i :: 0 <= i < |s| ==> HexDigits(s)[i] == DigitValue(s[i])
  {
    if s != [] {
      HexDigitsOfDigits(s[1..]);
    }
  }

  /** ASCII upper-casing. */
  function UpCase(c: char): char {
    if 'a' <= c <= 'z' then (c as int - 'a' as int + 'A' as int) as char else c
  }

  /** Two strings that agree up to the case of their letters have the same
      hexadecimal digits. */
  lemma {:induction false} HexDigitsIgnoreCase(s: string, t: string)
    requires |s| == |t|
    requires forall i :: 0 <= i < |s| ==> UpCase(s[i]) == UpCase(t[i])
    ensures HexDigits(s) == HexDigits(t)
  {
    if s != [] {
      HexDigitsIgnoreCase(s[1..], t[1..]);
      assert UpCase(s[0]) == UpCase(t[0]);
    }
  }
}
