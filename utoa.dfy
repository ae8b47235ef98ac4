/**
 * utoa of the Linux platform layer: an unsigned number written out as text
 * in any radix, most significant digit first, digits above 9 as 'A', 'B', ...
 * The digits are produced least significant first into a 17-character
 * scratch buffer and then copied in reverse into the caller's buffer,
 * followed by a NUL. The scratch buffer is too small for the widest
 * numbers: `UtoaScratchOverflow` shows one, and `UtoaWide` is utoa with a
 * scratch buffer that holds every 32-bit number's digits.
 */
module Utoa {
  import opened Arith

  /** `unsigned int` on the Linux targets is 32 bits wide. */
  const UINT_LIMIT: nat := 0x1_0000_0000
  /** The scratch buffer of utoa; the NUL is never written there, so it holds 17 digits. */
  const TEMP_SIZE: nat := 17
  /** A scratch buffer for the digits of any 32-bit number, in binary the longest. */
  const WIDE_TEMP_SIZE: nat := 32

  /** The character for one digit value: '0'..'9', then 'A' onwards. */
  function DigitChar(d: nat): (c: char)
    requires d < 72
    ensures d < 10 ==> '0' <= c <= '9'
    ensures 10 <= d ==> 'A' <= c
    ensures c as int < 128
  {
    if d < 10 then (d + '0' as int) as char else (d - 10 + 'A' as int) as char
  }

  /** A receiver's reading of one digit character. */
  function CharValue(c: char): int {
    if '0' <= c <= '9' then c as int - '0' as int else c as int - 'A' as int + 10
  }

  lemma CharValueDigitChar(d: nat)
    requires d < 72
    ensures CharValue(DigitChar(d)) == d
  {
  }

  /** The digit characters of n, least significant first, as the first loop makes them. */
  function LsbString(n: nat, radix: nat): (s: seq<char>)
    requires 2 <= radix <= 72
    ensures |s| >= 1
    decreases n
  {
    if n < radix then [DigitChar(n)] else [DigitChar(n % radix)] + LsbString(n / radix, radix)
  }

  function Reverse<T>(s: seq<T>): (r: seq<T>)
    ensures |r| == |s|
  {
    if s == [] then [] else Reverse(s[1..]) + [s[0]]
  }

  lemma {:induction false} ReverseAt<T>(s: seq<T>, i: nat)
    requires i < |s|
    ensures Reverse(s)[i] == s[|s| - 1 - i]
  {
    if i < |s| - 1 {
      ReverseAt(s[1..], i);
    }
  }

  /** A sequence that holds t's elements back to front is Reverse(t). */
  lemma ReversedCopy<T>(t: seq<T>, s: seq<T>)
    requires |s| == |t| && forall i :: 0 <= i < |s| ==> s[i] == t[|t| - 1 - i]
    ensures s == Reverse(t)
  {
    forall i | 0 <= i < |s| ensures Reverse(t)[i] == s[i] {
      ReverseAt(t, i);
    }
  }

  /** The text utoa writes before its NUL. */
  function UtoaString(n: nat, radix: nat): (s: seq<char>)
    requires 2 <= radix <= 72
  {
    Reverse(LsbString(n, radix))
  }

  /** Reading a digit string back, most significant digit first. */
  function ParseValue(s: seq<char>, radix: nat): int {
    if s == [] then 0 else ParseValue(s[..|s| - 1], radix) * radix + CharValue(s[|s| - 1])
  }

  lemma DivMod(n: nat, radix: nat)
    requires 2 <= radix
    ensures n == (n / radix) * radix + n % radix
    ensures n / radix == 0 <==> n < radix
    ensures n / radix < n || n == 0
  {
  }

  /** One round of the digit loop. */
  lemma LsbStep(n: nat, radix: nat)
    requires 2 <= radix <= 72
    ensures 0 <= n / radix && (n / radix < n || n == 0)
    ensures n / radix == 0 ==> LsbString(n, radix) == [DigitChar(n % radix)]
    ensures n / radix != 0 ==> LsbString(n, radix) == [DigitChar(n % radix)] + LsbString(n / radix, radix)
    ensures |LsbString(n, radix)| == 1 + (if n / radix == 0 then 0 else |LsbString(n / radix, radix)|)
  {
    DivMod(n, radix);
  }

  /** The text reads back as the number it was made from. */
  lemma {:induction false} UtoaStringValue(n: nat, radix: nat)
    requires 2 <= radix <= 72
    ensures ParseValue(UtoaString(n, radix), radix) == n
    decreases n
  {
    var s := UtoaString(n, radix);
    var last := DigitChar(n % radix);
    CharValueDigitChar(n % radix);
    DivMod(n, radix);
    if n / radix == 0 {
      assert s == [last];
    } else {
      var lsb := LsbString(n / radix, radix);
      assert LsbString(n, radix) == [last] + lsb;
      assert ([last] + lsb)[1..] == lsb;
      assert s == UtoaString(n / radix, radix) + [last];
      assert s[..|s| - 1] == UtoaString(n / radix, radix);
      UtoaStringValue(n / radix, radix);
    }
  }

  /** At least one digit, every one from the radix's alphabet, and no leading zero. */
  lemma {:induction false} UtoaStringShape(n: nat, radix: nat)
    requires 2 <= radix <= 72
    ensures 1 <= |UtoaString(n, radix)|
    ensures n == 0 <==> UtoaString(n, radix) == ['0']
    ensures |UtoaString(n, radix)| > 1 ==> UtoaString(n, radix)[0] != '0'
    ensures forall i :: 0 <= i < |UtoaString(n, radix)| ==> 0 <= CharValue(UtoaString(n, radix)[i]) < radix
    decreases n
  {
    var s := UtoaString(n, radix);
    CharValueDigitChar(n % radix);
    DivMod(n, radix);
    if n / radix == 0 {
      assert s == [DigitChar(n % radix)];
      assert n == n % radix;
    } else {
      var lsb := LsbString(n / radix, radix);
      assert LsbString(n, radix) == [DigitChar(n % radix)] + lsb;
      assert ([DigitChar(n % radix)] + lsb)[1..] == lsb;
      assert s == UtoaString(n / radix, radix) + [DigitChar(n % radix)];
      UtoaStringShape(n / radix, radix);
      assert s[0] == UtoaString(n / radix, radix)[0];
      forall i | 0 <= i < |s| ensures 0 <= CharValue(s[i]) < radix {
        if i < |s| - 1 {
          assert s[i] == UtoaString(n / radix, radix)[i];
        }
      }
      if s == ['0'] {
        assert false;
      }
    }
  }

  /** A number below 2^k has at most k digits in any radix (k >= 1). */
  lemma {:induction false} LsbStringWidth(n: nat, radix: nat, k: nat)
    requires 2 <= radix <= 72 && 1 <= k && n < Pow2(k)
    ensures |LsbString(n, radix)| <= k
    decreases n
  {
    DivMod(n, radix);
    if n >= radix {
      assert Pow2(0) == 1 && Pow2(1) == 2;
      assert k >= 2;
      QuotientBelow(n, radix, Pow2(k - 1));
      LsbStringWidth(n / radix, radix, k - 1);
    }
  }

  /** Dividing by a radix of at least 2 at least halves: below 2p gives below p. */
  lemma QuotientBelow(n: nat, radix: nat, p: nat)
    requires 2 <= radix && n < 2 * p
    ensures n / radix < p
  {
    var q := n / radix;
    DivNonNegative(n, radix);
    FloorDiv(n, radix);
    MulMono(2, radix, q);
    assert 2 * q <= q * radix <= n;
  }

  /** 2^k is a one followed by k zeros in binary. */
  lemma {:induction false} LsbStringPow2(k: nat)
    ensures |LsbString(Pow2(k), 2)| == k + 1
  {
    if k > 0 {
      assert Pow2(k) / 2 == Pow2(k - 1);
      LsbStringPow2(k - 1);
    }
  }

  /**
   * 2^17, well inside `unsigned int`, has 18 binary digits: the do-while
   * writes its last digit to temp[17], one past the end of the scratch buffer.
   */
  lemma UtoaScratchOverflow()
    ensures Pow2(17) < UINT_LIMIT && |LsbString(Pow2(17), 2)| == TEMP_SIZE + 1
  {
    LsbStringPow2(17);
    Pow2Widths();
  }

  /** Every number below 2^32 has its digits fit the wide scratch buffer. */
  lemma WideScratchFits(num: nat, radix: nat)
    requires num < UINT_LIMIT && 2 <= radix <= 72
    ensures |LsbString(num, radix)| <= WIDE_TEMP_SIZE
  {
    Pow2Widths();
    LsbStringWidth(num, radix, 32);
  }

  /** The do-while loop of utoa: the digits, least significant first, in a fresh scratch buffer of `size` characters. */
  method LsbDigits(num: nat, radix: nat, size: nat) returns (temp: array<char>, len: nat)
    requires 2 <= radix <= 72
    requires |LsbString(num, radix)| <= size
    ensures fresh(temp) && temp.Length == size
    ensures len == |LsbString(num, radix)| && temp[..len] == LsbString(num, radix)
  {
    temp := new char[size];
    var tempLoc := 0;
    var n: nat := num;
    ghost var full := LsbString(num, radix);
    // the first round is unconditional, so there is at least one digit
    LsbStep(n, radix);
    temp[tempLoc] := DigitChar(n % radix);
    ghost var acc: seq<char> := [DigitChar(n % radix)];
    tempLoc := tempLoc + 1;
    n := n / radix;
    while n > 0
      invariant 0 < tempLoc <= size && tempLoc == |acc|
      invariant temp[..tempLoc] == acc
      invariant n > 0 ==> full == acc + LsbString(n, radix)
      invariant n == 0 ==> full == acc
    {
      LsbStep(n, radix);
      temp[tempLoc] := DigitChar(n % radix);
      acc := acc + [DigitChar(n % radix)];
      tempLoc := tempLoc + 1;
      n := n / radix;
    }
    len := tempLoc;
  }

  /** The second loop of utoa: the scratch digits back to front into str, then the NUL. */
  method CopyReversed(temp: array<char>, len: nat, str: array<char>)
    requires len <= temp.Length && len < str.Length && temp != str
    modifies str
    ensures str[..len] == Reverse(temp[..len]) && str[len] == '\0'
    ensures forall i :: len < i < str.Length ==> str[i] == old(str[i])
  {
    ghost var full := temp[..len];
    var strLoc := 0;
    var tempLoc := len - 1;
    while tempLoc >= 0
      modifies str
      invariant -1 <= tempLoc < len && strLoc == len - 1 - tempLoc
      invariant forall i :: 0 <= i < strLoc ==> str[i] == full[len - 1 - i]
      invariant forall i :: strLoc <= i < str.Length ==> str[i] == old(str[i])
    {
      str[strLoc] := temp[tempLoc];
      strLoc := strLoc + 1;
      tempLoc := tempLoc - 1;
    }
    str[strLoc] := '\0';
    ReversedCopy(full, str[..len]);
  }

  /**
   * utoa(num, str, radix). The caller's buffer must have room for the
   * digits and the NUL, and the digits must fit the 17-character scratch
   * buffer (see UtoaScratchOverflow for a number whose digits do not).
   */
  method Utoa(num: nat, str: array<char>, radix: nat) returns (r: array<char>)
    requires num < UINT_LIMIT
    requires 2 <= radix <= 72
    requires |LsbString(num, radix)| <= TEMP_SIZE
    requires |LsbString(num, radix)| < str.Length
    modifies str
    ensures r == str
    ensures str[..|LsbString(num, radix)|] == UtoaString(num, radix)
    ensures str[|LsbString(num, radix)|] == '\0'
    ensures forall i :: |LsbString(num, radix)| < i < str.Length ==> str[i] == old(str[i])
  {
    var temp, len := LsbDigits(num, radix, TEMP_SIZE);
    CopyReversed(temp, len, str);
    r := str;
  }

  /** utoa with a 32-character scratch buffer: every 32-bit number is written out. */
  method UtoaWide(num: nat, str: array<char>, radix: nat) returns (r: array<char>)
    requires num < UINT_LIMIT
    requires 2 <= radix <= 72
    requires |LsbString(num, radix)| < str.Length
    modifies str
    ensures r == str
    ensures str[..|LsbString(num, radix)|] == UtoaString(num, radix)
    ensures str[|LsbString(num, radix)|] == '\0'
    ensures forall i :: |LsbString(num, radix)| < i < str.Length ==> str[i] == old(str[i])
  {
    WideScratchFits(num, radix);
    var temp, len := LsbDigits(num, radix, WIDE_TEMP_SIZE);
    CopyReversed(temp, len, str);
    r := str;
  }
}
