/**
 * The base-62 short-code encoder used by the shortener: a positive number is
 * written in base 62 over the alphabet a..z A..Z 0..9, least-significant digit
 * first. The digit for zero is 'a'.
 */
module Base62 {

  /** Number of symbols in the alphabet. */
  const Base: nat := 62

  const Lowercase: string := "abcdefghijklmnopqrstuvwxyz"
  const Uppercase: string := "ABCDEFGHIJKLMNOPQRSTUVWXYZ"
  const Numerals: string := "0123456789"

  /** The symbol table "a..zA..Z0..9": the character at index d is the digit for d. */
  const Alphabet: string := Lowercase + Uppercase + Numerals

  predicate InAlphabet(c: char) {
    'a' <= c <= 'z' || 'A' <= c <= 'Z' || '0' <= c <= '9'
  }

  /** The digit for d, by the layout of the table: 26 lower-case letters,
      26 upper-case letters, then 10 numerals. */
  function Symbol(d: nat): (c: char)
    requires d < Base
    ensures InAlphabet(c)
  {
    if d < 26 then ('a' as int + d) as char
    else if d < 52 then ('A' as int + d - 26) as char
    else ('0' as int + d - 52) as char
  }

  /** The table holds 62 entries, and entry d is the digit for d. */
  lemma AlphabetSymbol(d: nat)
    requires d < Base
    ensures |Alphabet| == Base && Alphabet[d] == Symbol(d)
  {
    if d < 26 {
      assert Alphabet[d] == Lowercase[d];
    } else if d < 52 {
      assert Alphabet[d] == Uppercase[d - 26];
    } else {
      assert Alphabet[d] == Numerals[d - 52];
    }
  }

  /** The value of one digit: the inverse of Symbol. */
  function DigitValue(c: char): (d: nat)
    requires InAlphabet(c)
    ensures d < Base && Symbol(d) == c
  {
    if 'a' <= c <= 'z' then c as int - 'a' as int
    else if 'A' <= c <= 'Z' then c as int - 'A' as int + 26
    else c as int - '0' as int + 52
  }

  /** Reading a digit's symbol gives the digit back. */
  lemma SymbolValue(d: nat)
    requires d < Base
    ensures DigitValue(Symbol(d)) == d
  {
  }

  /** Splitting a number into its lowest digit and the rest. */
  lemma DigitSplit(d: nat, q: nat)
    requires d < Base
    ensures (d + Base * q) % Base == d && (d + Base * q) / Base == q
  {
  }

  /** The specification of the encoder: digits of n, least significant first. */
  function Encode(n: nat): string
    decreases n
  {
    if n == 0 then [] else [Symbol(n % Base)] + Encode(n / Base)
  }

  /** One step of the encoder: a positive number's code is its lowest
      digit followed by the code of the rest. */
  lemma EncodeStep(d: nat, q: nat)
    requires d < Base && (d != 0 || q != 0)
    ensures Encode(d + Base * q) == [Symbol(d)] + Encode(q)
  {
    DigitSplit(d, q);
  }

  /** A string over the alphabet: the input domain of Decode. */
  ghost predicate OverAlphabet(s: string) {
    forall i :: 0 <= i < |s| ==> InAlphabet(s[i])
  }

  /** A string the encoder can produce: over the alphabet and without a
      trailing zero digit (the most significant digit is never 'a'). */
  ghost predicate Canonical(s: string) {
    OverAlphabet(s) && (s != [] ==> s[|s| - 1] != Symbol(0))
  }

  /** The positional value of a least-significant-first digit string. */
  function Decode(s: string): nat
    requires OverAlphabet(s)
  {
    if s == [] then 0 else DigitValue(s[0]) + Base * Decode(s[1..])
  }

  function Pow(k: nat): (p: nat)
    ensures p >= 1
  {
    if k == 0 then 1 else Base * Pow(k - 1)
  }

  /** Every output is over the alphabet, has no trailing 'a', and is empty
      exactly for zero. */
  lemma {:induction false} EncodeCanonical(n: nat)
    ensures Canonical(Encode(n))
    ensures Encode(n) == [] <==> n == 0
    decreases n
  {
    if n > 0 {
      var d := n % Base;
      var rest := Encode(n / Base);
      EncodeCanonical(n / Base);
      SymbolValue(d);
      assert Encode(n) == [Symbol(d)] + rest;
      if rest == [] {
        assert n / Base == 0;
        assert d != 0;
        assert DigitValue(Symbol(d)) != DigitValue(Symbol(0)) by { SymbolValue(0); }
      } else {
        assert Encode(n)[|Encode(n)| - 1] == rest[|rest| - 1];
      }
    }
  }

  /** Decoding an encoding gives the number back. */
  lemma {:induction false} DecodeEncode(n: nat)
    ensures OverAlphabet(Encode(n)) && Decode(Encode(n)) == n
    decreases n
  {
    EncodeCanonical(n);
    if n > 0 {
      var s := Encode(n);
      DecodeEncode(n / Base);
      SymbolValue(n % Base);
      assert s[0] == Symbol(n % Base) && s[1..] == Encode(n / Base);
    }
  }

  /** Encoding a canonical string's value gives the string back: the
      encoder's image is exactly the canonical strings. */
  lemma {:induction false} EncodeDecode(s: string)
    requires Canonical(s)
    ensures Encode(Decode(s)) == s
    decreases |s|
  {
    if s != [] {
      var t := s[1..];
      assert OverAlphabet(t);
      assert t != [] ==> t[|t| - 1] == s[|s| - 1];
      EncodeDecode(t);
      var d := DigitValue(s[0]);
      var q := Decode(t);
      if t == [] {
        assert s[0] == s[|s| - 1];
        assert d != 0 by { SymbolValue(0); }
      } else {
        assert q != 0;
      }
      EncodeStep(d, q);
      assert s == [s[0]] + t;
    }
  }

  /** Two numbers get the same code exactly when they are equal. */
  lemma EncodeInjective(m: nat, n: nat)
    ensures Encode(m) == Encode(n) <==> m == n
  {
    DecodeEncode(m);
    DecodeEncode(n);
  }

  /** A code of k digits holds numbers below 62^k, and a positive number
      needs all of them (no leading zero digit). */
  lemma {:induction false} EncodeLength(n: nat)
    ensures n < Pow(|Encode(n)|)
    ensures n > 0 ==> Pow(|Encode(n)| - 1) <= n
    decreases n
  {
    if n > 0 {
      EncodeLength(n / Base);
      assert |Encode(n)| == 1 + |Encode(n / Base)|;
    }
  }

  /** The encoder loop: repeatedly take num % 62 as the next digit and divide
      num by 62 until it reaches zero. */
  method EncodeDigits(n: nat) returns (code: string)
    ensures code == Encode(n)
  {
    var num: nat := n;
    code := [];
    while num > 0
      invariant code + Encode(num) == Encode(n)
      decreases num
    {
      var rem := num % Base;
      AlphabetSymbol(rem);
      code := code + [Alphabet[rem]];
      num := num / Base;
    }
  }
}
