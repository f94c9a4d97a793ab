/**
  Text as the programs handle it: hexadecimal and decimal printing, the two hexadecimal
  readers (Rust's `u8::from_str_radix`, which also takes a leading plus sign, and the strict
  one), and case folding. Text is ASCII, so one character is one byte.
 */
module Text {
  import opened Bytes
  import opened Options

  type ascii = c: char | c < 128 as char witness 'a'
  type Text = seq<ascii>

  const QUOTE: ascii := '"'

  function BytesOf(s: Text): (bs: seq<byte>)
    ensures |bs| == |s|
    ensures forall i :: 0 <= i < |s| ==> bs[i] == s[i] as int
  {
    seq(|s|, i requires 0 <= i < |s| => s[i] as int)
  }

  lemma BytesOfInjective(s: Text, t: Text)
    requires BytesOf(s) == BytesOf(t)
    ensures s == t
  {
    forall i | 0 <= i < |s| ensures s[i] == t[i] {
      assert BytesOf(s)[i] == BytesOf(t)[i];
      assert s[i] as int as char == t[i] as int as char;
    }
  }

  // ----- Case folding -----

  function LowerChar(c: ascii): ascii {
    if 'A' <= c <= 'Z' then (c as int + 32) as char else c
  }

  function Lower(s: Text): (t: Text)
    ensures |t| == |s|
    ensures forall i :: 0 <= i < |s| ==> t[i] == LowerChar(s[i])
  {
    seq(|s|, i requires 0 <= i < |s| => LowerChar(s[i]))
  }

  predicate IsUpper(c: ascii) {
    'A' <= c <= 'Z'
  }

  /** Two characters fold to the same one exactly if they are equal or the two cases of one letter. */
  lemma FoldsAlikeIff(c: ascii, d: ascii)
    ensures LowerChar(c) == LowerChar(d) <==>
            || c == d
            || (IsUpper(c) && d as int == c as int + 32)
            || (IsUpper(d) && c as int == d as int + 32)
  {
  }

  lemma LowerTwice(s: Text)
    ensures Lower(Lower(s)) == Lower(s)
  {
  }

  // ----- Hexadecimal -----

  function HexDigit(d: nat): ascii
    requires d < 16
  {
    if d < 10 then ('0' as int + d) as char else ('a' as int + d - 10) as char
  }

  function HexValue(c: ascii): (d: Option<nat>)
    ensures d.Some? ==> d.value < 16
  {
    if '0' <= c <= '9' then Some(c as int - '0' as int)
    else if 'a' <= c <= 'f' then Some(c as int - 'a' as int + 10)
    else if 'A' <= c <= 'F' then Some(c as int - 'A' as int + 10)
    else None
  }

  /** `{:02x}` over a byte string. */
  function HexEncode(bs: seq<byte>): Text {
    if bs == [] then [] else [HexDigit(bs[0] / 16), HexDigit(bs[0] % 16)] + HexEncode(bs[1..])
  }

  /** One byte from two characters. `from_str_radix` reads `+5` as 5; a strict reader does not. */
  function PairValue(hi: ascii, lo: ascii, allowPlus: bool): Option<byte> {
    var h, l := HexValue(hi), HexValue(lo);
    if l.None? then None
    else if h.Some? then Some(16 * h.value + l.value)
    else if allowPlus && hi == '+' then Some(l.value)
    else None
  }

  /** Reads character pairs from the left; an odd length or a bad pair fails. */
  function DecodePairs(s: Text, allowPlus: bool): (r: Option<seq<byte>>)
    ensures r.Some? ==> |s| == 2 * |r.value|
  {
    if s == [] then Some([])
    else if |s| == 1 then None
    else
      var first, rest := PairValue(s[0], s[1], allowPlus), DecodePairs(s[2..], allowPlus);
      if first.Some? && rest.Some? then Some([first.value] + rest.value) else None
  }

  /** A character is a digit of this value exactly if it is that digit in lower or upper case. */
  lemma HexValueIff(c: ascii, d: nat)
    requires d < 16
    ensures HexValue(c) == Some(d) <==> LowerChar(c) == "0123456789abcdef"[d]
  {
    DigitAt(d);
  }

  /** A pair is read if both are digits, or, where a plus sign is allowed, a plus sign before a digit. */
  lemma PairReads(hi: ascii, lo: ascii, allowPlus: bool)
    ensures PairValue(hi, lo, allowPlus).Some? <==>
            HexValue(lo).Some? && (HexValue(hi).Some? || (allowPlus && hi == '+'))
    ensures HexValue(hi).Some? && HexValue(lo).Some? ==>
              PairValue(hi, lo, allowPlus) == Some(16 * HexValue(hi).value + HexValue(lo).value)
    ensures HexValue(lo).Some? ==> PairValue('+', lo, true) == Some(HexValue(lo).value)
  {
  }

  /** Printing uses lower-case digits, and two of them a byte, the higher first. */
  lemma HexDigits(b: byte)
    ensures HexEncode([b]) == ["0123456789abcdef"[b / 16], "0123456789abcdef"[b % 16]]
  {
    DigitAt(b / 16);
    DigitAt(b % 16);
    assert [b][1..] == [];
  }

  lemma DigitAt(d: nat)
    requires d < 16
    ensures HexDigit(d) == "0123456789abcdef"[d]
  {
  }

  lemma {:induction false} HexByByte(bs: seq<byte>, i: nat)
    requires i < |bs|
    ensures |HexEncode(bs)| == 2 * |bs|
    ensures HexEncode(bs)[2 * i..2 * i + 2] == HexEncode([bs[i]])
  {
    DecodeOfEncode(bs, false);
    DecodeOfEncode(bs[1..], false);
    assert [bs[i]][1..] == [];
    if i > 0 {
      HexByByte(bs[1..], i - 1);
      assert HexEncode(bs)[2 * i..2 * i + 2] == HexEncode(bs[1..])[2 * (i - 1)..2 * (i - 1) + 2];
    }
  }

  /** What a decoding loop has read so far, followed by what is still to be read. */
  function Prepend(done: seq<byte>, rest: Option<seq<byte>>): (r: Option<seq<byte>>)
    ensures done == [] ==> r == rest
    ensures rest == Some([]) ==> r == Some(done)
  {
    assert rest.Some? ==> [] + rest.value == rest.value;
    assert done + [] == done;
    if rest.Some? then Some(done + rest.value) else None
  }

  /** One turn of a decoding loop at position `i` of `s`. */
  lemma DecodeStep(s: Text, i: nat, done: seq<byte>, allowPlus: bool)
    requires i + 1 < |s|
    ensures var first := PairValue(s[i], s[i + 1], allowPlus);
            Prepend(done, DecodePairs(s[i..], allowPlus)) ==
            if first.None? then None
            else Prepend(done + [first.value], DecodePairs(s[i + 2..], allowPlus))
  {
    assert s[i..][2..] == s[i + 2..];
    var first, rest := PairValue(s[i], s[i + 1], allowPlus), DecodePairs(s[i + 2..], allowPlus);
    if first.Some? && rest.Some? {
      assert done + ([first.value] + rest.value) == done + [first.value] + rest.value;
    }
  }

  /** `strip_prefix("0x").unwrap_or(..)`: only a lower-case prefix is dropped. */
  function StripPrefix(s: Text): Text {
    if |s| >= 2 && s[0] == '0' && s[1] == 'x' then s[2..] else s
  }

  lemma DigitRoundTrip(d: nat)
    requires d < 16
    ensures HexValue(HexDigit(d)) == Some(d)
  {
  }

  lemma {:induction false} DecodeOfEncode(bs: seq<byte>, allowPlus: bool)
    ensures |HexEncode(bs)| == 2 * |bs|
    ensures DecodePairs(HexEncode(bs), allowPlus) == Some(bs)
  {
    if bs == [] {
    } else {
      DecodeOfEncode(bs[1..], allowPlus);
      assert HexEncode(bs)[2..] == HexEncode(bs[1..]);
      DigitRoundTrip(bs[0] / 16);
      DigitRoundTrip(bs[0] % 16);
      assert PairValue(HexEncode(bs)[0], HexEncode(bs)[1], allowPlus) == Some(bs[0]);
      assert [bs[0]] + bs[1..] == bs;
    }
  }

  lemma {:induction false} DecodeIgnoresCase(s: Text, allowPlus: bool)
    ensures DecodePairs(Lower(s), allowPlus) == DecodePairs(s, allowPlus)
  {
    if |s| >= 2 {
      DecodeIgnoresCase(s[2..], allowPlus);
      assert Lower(s)[2..] == Lower(s[2..]);
    }
  }

  /** Whatever the strict reader accepts, the lenient one reads the same way. */
  lemma {:induction false} StrictAgreesWithLenient(s: Text)
    requires DecodePairs(s, false).Some?
    ensures DecodePairs(s, true) == DecodePairs(s, false)
  {
    if |s| >= 2 {
      StrictAgreesWithLenient(s[2..]);
    }
  }

  /** The two readers part over plus signs only; a capital X is read by neither. */
  lemma {:induction false} StrictUnlessPlus(s: Text)
    requires DecodePairs(s, true).Some?
    ensures DecodePairs(s, false).Some? <==> '+' !in s
    ensures 'X' !in s
  {
    if |s| >= 2 {
      StrictUnlessPlus(s[2..]);
      assert s == [s[0], s[1]] + s[2..];
    }
  }

  lemma {:induction false} DecodedHasNoQuote(s: Text, allowPlus: bool)
    requires DecodePairs(s, allowPlus).Some?
    ensures QUOTE !in s
  {
    if |s| >= 2 {
      DecodedHasNoQuote(s[2..], allowPlus);
      assert s == [s[0], s[1]] + s[2..];
    }
  }

  lemma StripHasNoQuote(s: Text)
    requires QUOTE !in StripPrefix(s)
    ensures QUOTE !in s
  {
    if StripPrefix(s) != s {
      assert s == ['0', 'x'] + s[2..];
    }
  }

  // ----- Decimal -----

  function DecDigit(d: nat): ascii
    requires d < 10
  {
    ('0' as int + d) as char
  }

  /** `{}` of an unsigned integer. */
  function Dec(n: nat): (s: Text)
    ensures |s| > 0
    ensures forall i :: 0 <= i < |s| ==> '0' <= s[i] <= '9'
  {
    if n < 10 then [DecDigit(n)] else Dec(n / 10) + [DecDigit(n % 10)]
  }

  function ParseDec(s: Text): nat
    requires forall i :: 0 <= i < |s| ==> '0' <= s[i] <= '9'
  {
    if s == [] then 0 else 10 * ParseDec(s[..|s| - 1]) + (s[|s| - 1] as int - '0' as int)
  }

  lemma {:induction false} DecRoundTrip(n: nat)
    ensures ParseDec(Dec(n)) == n
  {
    if n < 10 {
    } else {
      DecRoundTrip(n / 10);
      assert Dec(n)[..|Dec(n)| - 1] == Dec(n / 10);
    }
  }

  lemma DecInjective(m: nat, n: nat)
    requires Dec(m) == Dec(n)
    ensures m == n
  {
    DecRoundTrip(m);
    DecRoundTrip(n);
  }

  lemma {:induction false} DecLengthMonotone(m: nat, n: nat)
    requires m <= n
    ensures |Dec(m)| <= |Dec(n)|
  {
    if n < 10 || m < 10 {
    } else {
      DecLengthMonotone(m / 10, n / 10);
    }
  }
}
