/**
 The k-mer encoder of the Domino hash.

 `genome_to_binary` turns DNA text into a string of '0'/'1' characters, two
 characters per base (A=00, T=01, G=10, C=11), silently dropping every other
 character. `binary_to_decimal` reads such a digit string as an unsigned base-2
 number, most significant digit first. Together they give a k-mer its slot.

 Each operation has a recursive reference definition (`BinaryValue`,
 `GenomeBits`) and a method that follows the Python loop (`BinaryToDecimal`,
 `GenomeToBinary`), proved to agree with it. Decoders (`NatToBinary`,
 `BinaryToGenome`) are the partners that make the round trips and the
 injectivity of the encoding provable.
 */
module Encoder {

  // ---------------------------------------------------------------------------
  // Binary digit strings
  // ---------------------------------------------------------------------------

  /** The ASCII binary digits '0' and '1'. */
  predicate IsBit(c: char) {
    c == '0' || c == '1'
  }

  predicate IsBitString(s: seq<char>) {
    forall i :: 0 <= i < |s| ==> IsBit(s[i])
  }

  /** `int(digit)` on a binary digit. */
  function DigitValue(c: char): (d: nat)
    requires IsBit(c)
    ensures d < 2
    ensures d == 1 <==> c == '1'
  {
    if c == '1' then 1 else 0
  }

  /** The character of a single binary digit: the inverse of `DigitValue`. */
  function BitChar(d: nat): (c: char)
    requires d < 2
    ensures IsBit(c) && DigitValue(c) == d
  {
    if d == 1 then '1' else '0'
  }

  /** `2 ** n` */
  function Pow2(n: nat): (p: nat)
    ensures p >= 1
  {
    if n == 0 then 1 else 2 * Pow2(n - 1)
  }

  /** `4 ** n` */
  function Pow4(n: nat): (p: nat)
    ensures p >= 1
  {
    if n == 0 then 1 else 4 * Pow4(n - 1)
  }

  lemma {:induction false} Pow2Twice(n: nat)
    ensures Pow2(2 * n) == Pow4(n)
  {
    if n > 0 {
      Pow2Twice(n - 1);
      assert Pow2(2 * n) == 4 * Pow2(2 * (n - 1));
    }
  }

  lemma {:induction false} Pow2Monotonic(m: nat, n: nat)
    requires m <= n
    ensures Pow2(m) <= Pow2(n)
  {
    if m < n {
      Pow2Monotonic(m, n - 1);
    }
  }

  /**
   The value of a binary digit string, most significant digit first:
   the sum of d_i * 2^(n-1-i) over the n digits. The empty string is worth 0.
   */
  function BinaryValue(s: seq<char>): (v: nat)
    requires IsBitString(s)
    ensures v < Pow2(|s|)
  {
    if |s| == 0 then 0
    else DigitValue(s[0]) * Pow2(|s| - 1) + BinaryValue(s[1..])
  }

  /** Horner's rule: appending a digit doubles the value and adds the digit. */
  lemma {:induction false} BinaryValueAppend(s: seq<char>, b: char)
    requires IsBitString(s) && IsBit(b)
    ensures IsBitString(s + [b])
    ensures BinaryValue(s + [b]) == 2 * BinaryValue(s) + DigitValue(b)
  {
    var t := s + [b];
    assert IsBitString(t) by {
      forall i | 0 <= i < |t| ensures IsBit(t[i]) {
        if i < |s| { assert t[i] == s[i]; }
      }
    }
    if |s| == 0 {
      assert t == [b];
    } else {
      assert t[1..] == s[1..] + [b];
      BinaryValueAppend(s[1..], b);
      calc {
        BinaryValue(t);
        DigitValue(s[0]) * Pow2(|s|) + BinaryValue(s[1..] + [b]);
        DigitValue(s[0]) * (2 * Pow2(|s| - 1)) + 2 * BinaryValue(s[1..]) + DigitValue(b);
        2 * (DigitValue(s[0]) * Pow2(|s| - 1) + BinaryValue(s[1..])) + DigitValue(b);
      }
    }
  }

  /** The n-digit binary representation of v, most significant digit first. */
  function NatToBinary(v: nat, n: nat): (s: seq<char>)
    requires v < Pow2(n)
    ensures |s| == n && IsBitString(s)
  {
    if n == 0 then []
    else NatToBinary(v / 2, n - 1) + [BitChar(v % 2)]
  }

  /** Decoding the value of a digit string at its own width gives the string back. */
  lemma {:induction false} BinaryRoundTrip(s: seq<char>)
    requires IsBitString(s)
    ensures NatToBinary(BinaryValue(s), |s|) == s
  {
    if |s| > 0 {
      var p, b := s[..|s| - 1], s[|s| - 1];
      assert s == p + [b];
      assert IsBitString(p) by {
        forall i | 0 <= i < |p| ensures IsBit(p[i]) {
          assert p[i] == s[i];
        }
      }
      BinaryValueAppend(p, b);
      BinaryRoundTrip(p);
      var v := BinaryValue(s);
      assert v / 2 == BinaryValue(p) && v % 2 == DigitValue(b);
    }
  }

  /** Encoding a number at a width it fits in and reading it back gives the number. */
  lemma {:induction false} NatRoundTrip(v: nat, n: nat)
    requires v < Pow2(n)
    ensures BinaryValue(NatToBinary(v, n)) == v
  {
    if n > 0 {
      NatRoundTrip(v / 2, n - 1);
      BinaryValueAppend(NatToBinary(v / 2, n - 1), BitChar(v % 2));
    }
  }

  /** Digit strings of one length with the same value are the same string. */
  lemma {:induction false} BinaryValueInjective(s: seq<char>, t: seq<char>)
    requires IsBitString(s) && IsBitString(t)
    requires |s| == |t|
    requires BinaryValue(s) == BinaryValue(t)
    ensures s == t
  {
    BinaryRoundTrip(s);
    BinaryRoundTrip(t);
  }

  /**
   `binary_to_decimal`: the Python loop, adding `int(digit) * 2 ** power`
   for each digit while `power` counts down from `len(binary) - 1`.
   */
  method BinaryToDecimal(binary: seq<char>) returns (decimal: nat)
    requires IsBitString(binary)
    ensures decimal == BinaryValue(binary)
  {
    var n := |binary|;
    decimal := 0;
    var power: int := n - 1;
    for i := 0 to n
      invariant power == n - 1 - i
      invariant decimal + BinaryValue(binary[i..]) == BinaryValue(binary)
    {
      var digit := binary[i];
      assert binary[i..][1..] == binary[i + 1..];
      decimal := decimal + DigitValue(digit) * Pow2(power);
      power := power - 1;
    }
  }

  // ---------------------------------------------------------------------------
  // DNA text
  // ---------------------------------------------------------------------------

  /** One of the four symbols the encoder knows. */
  predicate IsBase(c: char) {
    c == 'A' || c == 'T' || c == 'G' || c == 'C'
  }

  predicate IsDna(s: seq<char>) {
    forall i :: 0 <= i < |s| ==> IsBase(s[i])
  }

  /** The bits one character contributes: A=00, T=01, G=10, C=11, nothing for any other character. */
  function BaseCode(c: char): (code: seq<char>)
    ensures IsBitString(code)
    ensures |code| == (if IsBase(c) then 2 else 0)
  {
    if c == 'A' then "00"
    else if c == 'T' then "01"
    else if c == 'G' then "10"
    else if c == 'C' then "11"
    else ""
  }

  /** The base a two-digit code stands for: the inverse of `BaseCode` on the alphabet. */
  function CodeBase(hi: char, lo: char): (c: char)
    requires IsBit(hi) && IsBit(lo)
    ensures IsBase(c) && BaseCode(c) == [hi, lo]
    ensures forall d :: IsBase(d) && BaseCode(d) == [hi, lo] ==> d == c
  {
    if hi == '0' then (if lo == '0' then 'A' else 'T')
    else (if lo == '0' then 'G' else 'C')
  }

  /** The characters of s that belong to the alphabet, in order. */
  function Bases(s: seq<char>): (r: seq<char>)
    ensures IsDna(r) && |r| <= |s|
  {
    if |s| == 0 then []
    else if IsBase(s[0]) then [s[0]] + Bases(s[1..])
    else Bases(s[1..])
  }

  /** A string over the alphabet keeps every character. */
  lemma {:induction false} BasesOfDna(s: seq<char>)
    requires IsDna(s)
    ensures Bases(s) == s
  {
    if |s| > 0 {
      BasesOfDna(s[1..]);
      assert s == [s[0]] + s[1..];
    }
  }

  /** The bit string of a piece of DNA text: the codes of its characters, in order. */
  function GenomeBits(s: seq<char>): (bits: seq<char>)
    ensures IsBitString(bits)
    ensures |bits| == 2 * |Bases(s)|
  {
    if |s| == 0 then [] else BaseCode(s[0]) + GenomeBits(s[1..])
  }

  /** The encoding distributes over concatenation. */
  lemma {:induction false} GenomeBitsConcat(s: seq<char>, t: seq<char>)
    ensures GenomeBits(s + t) == GenomeBits(s) + GenomeBits(t)
  {
    if |s| == 0 {
      assert s + t == t;
    } else {
      assert (s + t)[1..] == s[1..] + t;
      GenomeBitsConcat(s[1..], t);
    }
  }

  /** Appending one character appends its code. */
  lemma {:induction false} GenomeBitsSnoc(s: seq<char>, c: char)
    ensures GenomeBits(s + [c]) == GenomeBits(s) + BaseCode(c)
  {
    GenomeBitsConcat(s, [c]);
    assert GenomeBits([c]) == BaseCode(c) + GenomeBits([c][1..]);
  }

  /** Characters outside the alphabet contribute nothing. */
  lemma {:induction false} GenomeBitsIgnoresOthers(s: seq<char>)
    ensures GenomeBits(s) == GenomeBits(Bases(s))
  {
    if |s| > 0 {
      GenomeBitsIgnoresOthers(s[1..]);
      if IsBase(s[0]) {
        assert ([s[0]] + Bases(s[1..]))[1..] == Bases(s[1..]);
      }
    }
  }

  /** Base i of a DNA string is encoded by digits 2i and 2i+1. */
  lemma {:induction false} GenomeBitsAt(s: seq<char>, i: nat)
    requires IsDna(s) && i < |s|
    ensures 2 * i + 2 <= |GenomeBits(s)|
    ensures GenomeBits(s)[2 * i .. 2 * i + 2] == BaseCode(s[i])
  {
    BasesOfDna(s);
    var bits, rest := GenomeBits(s), GenomeBits(s[1..]);
    assert bits == BaseCode(s[0]) + rest;
    if i > 0 {
      GenomeBitsAt(s[1..], i - 1);
      assert bits[2..] == rest;
      assert bits[2 * i .. 2 * i + 2] == rest[2 * (i - 1) .. 2 * (i - 1) + 2];
    }
  }

  /** Each base of a DNA string is encoded by its own two digits, in input order. */
  lemma {:induction false} GenomeBitsLayout(s: seq<char>)
    requires IsDna(s)
    ensures |GenomeBits(s)| == 2 * |s|
    ensures forall i :: 0 <= i < |s| ==> GenomeBits(s)[2 * i .. 2 * i + 2] == BaseCode(s[i])
  {
    BasesOfDna(s);
    forall i | 0 <= i < |s| ensures GenomeBits(s)[2 * i .. 2 * i + 2] == BaseCode(s[i]) {
      GenomeBitsAt(s, i);
    }
  }

  /** Reads an even-length digit string back as DNA, two digits per base. */
  function BinaryToGenome(bits: seq<char>): (s: seq<char>)
    requires IsBitString(bits) && |bits| % 2 == 0
    ensures IsDna(s) && 2 * |s| == |bits|
  {
    if |bits| == 0 then []
    else [CodeBase(bits[0], bits[1])] + BinaryToGenome(bits[2..])
  }

  /** Decoding the bits of a DNA string recovers the string. */
  lemma {:induction false} GenomeRoundTrip(s: seq<char>)
    requires IsDna(s)
    ensures |GenomeBits(s)| % 2 == 0
    ensures BinaryToGenome(GenomeBits(s)) == s
  {
    GenomeBitsLayout(s);
    if |s| > 0 {
      GenomeRoundTrip(s[1..]);
      assert GenomeBits(s)[2..] == GenomeBits(s[1..]);
    }
  }

  /** Encoding decoded bits gives the bits back: the encoding is onto even-length digit strings. */
  lemma {:induction false} BinaryGenomeRoundTrip(bits: seq<char>)
    requires IsBitString(bits) && |bits| % 2 == 0
    ensures GenomeBits(BinaryToGenome(bits)) == bits
  {
    if |bits| > 0 {
      assert IsBitString(bits[2..]) by {
        forall i | 0 <= i < |bits[2..]| ensures IsBit(bits[2..][i]) {
          assert bits[2..][i] == bits[i + 2];
        }
      }
      BinaryGenomeRoundTrip(bits[2..]);
      var s := BinaryToGenome(bits);
      assert s[1..] == BinaryToGenome(bits[2..]);
      assert bits == [bits[0], bits[1]] + bits[2..];
    }
  }

  /**
   `genome_to_binary`: the Python loop, appending the code of each alphabet
   character to the result and skipping every other character.
   */
  method GenomeToBinary(sq: seq<char>) returns (binary: seq<char>)
    ensures binary == GenomeBits(sq)
  {
    binary := "";
    for k := 0 to |sq|
      invariant binary == GenomeBits(sq[..k])
    {
      var i := sq[k];
      ghost var before := binary;
      if i == 'A' {
        binary := binary + "00";
      } else if i == 'T' {
        binary := binary + "01";
      } else if i == 'G' {
        binary := binary + "10";
      } else if i == 'C' {
        binary := binary + "11";
      }
      assert binary == before + BaseCode(i);
      assert sq[..k + 1] == sq[..k] + [i];
      GenomeBitsSnoc(sq[..k], i);
    }
    assert sq[..|sq|] == sq;
  }

  // ---------------------------------------------------------------------------
  // K-mer keys
  // ---------------------------------------------------------------------------

  /**
   The slot a k-mer is filed under, `hash(genome_to_binary(window))`: two bits
   per alphabet character, so below 4 to the power of their number.
   */
  function KmerKey(s: seq<char>): (k: nat)
    ensures k < Pow4(|Bases(s)|)
  {
    Pow2Twice(|Bases(s)|);
    BinaryValue(GenomeBits(s))
  }

  /** A DNA string of length L has a key in [0, 4^L). */
  lemma {:induction false} KmerKeyRange(s: seq<char>)
    requires IsDna(s)
    ensures KmerKey(s) < Pow4(|s|)
  {
    GenomeBitsLayout(s);
    Pow2Twice(|s|);
  }

  /** Distinct DNA strings of one length have distinct keys. */
  lemma {:induction false} KmerKeyInjective(s: seq<char>, t: seq<char>)
    requires IsDna(s) && IsDna(t) && |s| == |t|
    requires KmerKey(s) == KmerKey(t)
    ensures s == t
  {
    GenomeBitsLayout(s);
    GenomeBitsLayout(t);
    BinaryValueInjective(GenomeBits(s), GenomeBits(t));
    GenomeRoundTrip(s);
    GenomeRoundTrip(t);
  }

  /** Any text of at most w characters, alphabet or not, encodes below 4^w. */
  lemma {:induction false} WindowKeyBound(s: seq<char>, w: nat)
    requires |s| <= w
    ensures KmerKey(s) < Pow4(w)
  {
    Pow2Monotonic(|GenomeBits(s)|, 2 * w);
    Pow2Twice(w);
  }

  /** The worked encodings: "AT" is 0001 = 1, "GC" is 1011 = 11, and "T" lands in slot 1 too. */
  lemma WorkedEncodings()
    ensures GenomeBits("AT") == "0001" && BinaryValue("0001") == 1
    ensures GenomeBits("GC") == "1011" && BinaryValue("1011") == 11
    ensures GenomeBits("T") == "01" && BinaryValue("01") == 1
    ensures GenomeBits("A-T") == "0001"
    ensures BinaryValue("") == 0
  {
    assert "A-T"[1..] == "-T";
    assert "-T"[1..] == "T";
  }
}
