/**
 * The string operations the date code relies on: ASCII case mapping,
 * decimal numerals (Number.prototype.toString and ToNumber on digit
 * strings), zero padding, substr, and whitespace cleaning.
 */
module Text {
  import opened Errors

  predicate IsDigit(c: char)
  {
    '0' <= c <= '9'
  }

  predicate IsAllDigits(s: string)
  {
    forall i :: 0 <= i < |s| ==> IsDigit(s[i])
  }

  function DigitChar(d: int): (c: char)
    requires 0 <= d < 10
    ensures IsDigit(c)
  {
    "0123456789"[d]
  }

  function DigitValue(c: char): (d: int)
    requires IsDigit(c)
    ensures 0 <= d < 10
  {
    c as int - '0' as int
  }

  lemma DigitRoundTrip(d: int)
    requires 0 <= d < 10
    ensures DigitValue(DigitChar(d)) == d
  {
  }

  function LowerChar(c: char): char
  {
    if 'A' <= c <= 'Z' then (c as int + 32) as char else c
  }

  function UpperChar(c: char): char
  {
    if 'a' <= c <= 'z' then (c as int - 32) as char else c
  }

  /** String.prototype.toLowerCase, on ASCII letters. */
  function Lower(s: string): (r: string)
    ensures |r| == |s| && forall i :: 0 <= i < |s| ==> r[i] == LowerChar(s[i])
  {
    if s == [] then [] else [LowerChar(s[0])] + Lower(s[1..])
  }

  /** A string without capital letters is its own lower case. */
  lemma LowerOfLowerCase(s: string)
    requires forall i :: 0 <= i < |s| ==> !('A' <= s[i] <= 'Z')
    ensures Lower(s) == s
  {
    assert forall i :: 0 <= i < |s| ==> Lower(s)[i] == s[i];
  }

  /** String.prototype.toUpperCase, on ASCII letters. */
  function Upper(s: string): (r: string)
    ensures |r| == |s| && forall i :: 0 <= i < |s| ==> r[i] == UpperChar(s[i])
  {
    if s == [] then [] else [UpperChar(s[0])] + Upper(s[1..])
  }

  /** `new RegExp('^' + prefix, 'i').test(name)` for a prefix without metacharacters. */
  predicate StartsWithIgnoringCase(name: string, prefix: string)
  {
    |prefix| <= |name| && Lower(name[..|prefix|]) == Lower(prefix)
  }

  /** The decimal value of a string of digits. */
  function DecimalValue(s: string): (n: nat)
    requires IsAllDigits(s)
  {
    if s == [] then 0 else DecimalValue(s[..|s| - 1]) * 10 + DigitValue(s[|s| - 1])
  }

  /** Number.prototype.toString of a natural number: its shortest decimal numeral. */
  function NatToString(n: nat): (s: string)
    ensures |s| >= 1 && IsAllDigits(s)
  {
    if n < 10 then [DigitChar(n)] else NatToString(n / 10) + [DigitChar(n % 10)]
  }

  lemma {:induction false} NatToStringValue(n: nat)
    ensures DecimalValue(NatToString(n)) == n
  {
    if n >= 10 {
      var s := NatToString(n);
      NatToStringValue(n / 10);
      assert s[..|s| - 1] == NatToString(n / 10);
      DigitRoundTrip(n % 10);
    } else {
      DigitRoundTrip(n);
    }
  }

  /** The numeral has as many digits as the number needs. */
  lemma {:induction false} NatToStringLength(n: nat, k: nat)
    requires k >= 1
    ensures |NatToString(n)| <= k <==> n < Pow10(k)
  {
    if n >= 10 {
      if k >= 2 {
        NatToStringLength(n / 10, k - 1);
      } else {
        assert |NatToString(n)| >= 2;
      }
    } else {
      Pow10Positive(k);
    }
  }

  function Pow10(k: nat): (p: nat)
  {
    if k == 0 then 1 else 10 * Pow10(k - 1)
  }

  lemma {:induction false} Pow10Positive(k: nat)
    ensures Pow10(k) >= 1 && (k >= 1 ==> Pow10(k) >= 10)
  {
    if k > 0 {
      Pow10Positive(k - 1);
    }
  }

  /** Number.prototype.toString of an integer. */
  function IntToString(i: int): (s: string)
    ensures |s| >= 1
  {
    if i < 0 then "-" + NatToString(-i) else NatToString(i)
  }

  /**
   * ToNumber of the empty string (0) or of a decimal numeral with an
   * optional sign; None where the host gives NaN.
   */
  function ToNumber(s: string): (r: Option<int>)
    ensures IsAllDigits(s) ==> r == Some(DecimalValue(s))
  {
    if IsAllDigits(s) then Some(DecimalValue(s))
    else if |s| >= 2 && s[0] == '+' && IsAllDigits(s[1..]) then Some(DecimalValue(s[1..]))
    else if |s| >= 2 && s[0] == '-' && IsAllDigits(s[1..]) then Some(-(DecimalValue(s[1..]) as int))
    else None
  }

  /** ToNumber reads back every numeral Number.prototype.toString writes. */
  lemma ToNumberOfIntToString(i: int)
    ensures ToNumber(IntToString(i)) == Some(i)
  {
    if i < 0 {
      NegativeToString(i);
    } else {
      NatToStringValue(i);
    }
  }

  lemma NegativeToString(i: int)
    requires i < 0
    ensures ToNumber(IntToString(i)) == Some(i)
  {
    var n: nat := -i;
    var digits := NatToString(n);
    assert IntToString(i) == "-" + digits;
    NatToStringValue(n);
    ToNumberOfNegative(digits);
  }

  lemma ToNumberOfNegative(digits: string)
    requires digits != [] && IsAllDigits(digits)
    ensures ToNumber("-" + digits) == Some(-(DecimalValue(digits) as int))
  {
    var s := "-" + digits;
    assert !IsDigit(s[0]);
    assert s[1..] == digits;
  }

  function Repeat(c: char, n: int): (s: string)
    ensures |s| == (if n < 0 then 0 else n) && forall i :: 0 <= i < |s| ==> s[i] == c
  {
    if n <= 0 then [] else [c] + Repeat(c, n - 1)
  }

  /**
   * `zeroize(what, length)`: the numeral of `what`, left-padded with '0'
   * to `length` characters; a numeral already longer is left as it is.
   */
  function Zeroize(what: int, length: int): string
  {
    Repeat('0', length - |IntToString(what)|) + IntToString(what)
  }

  /** Padding a number below 10^k to k places gives exactly k digits with its value. */
  lemma {:induction false} ZeroizeDigits(n: nat, k: nat)
    requires k >= 1 && n < Pow10(k)
    ensures |Zeroize(n, k)| == k && IsAllDigits(Zeroize(n, k))
    ensures DecimalValue(Zeroize(n, k)) == n
  {
    NatToStringLength(n, k);
    NatToStringValue(n);
    LeadingZeros(k - |NatToString(n)|, NatToString(n));
  }

  lemma {:induction false} LeadingZeros(z: nat, s: string)
    requires IsAllDigits(s)
    ensures IsAllDigits(Repeat('0', z) + s) && DecimalValue(Repeat('0', z) + s) == DecimalValue(s)
    decreases |s|
  {
    if s == [] {
      ZerosValue(z);
      assert Repeat('0', z) + s == Repeat('0', z);
    } else {
      var t := Repeat('0', z) + s;
      LeadingZeros(z, s[..|s| - 1]);
      assert t[..|t| - 1] == Repeat('0', z) + s[..|s| - 1];
    }
  }

  lemma {:induction false} ZerosValue(z: nat)
    ensures IsAllDigits(Repeat('0', z)) && DecimalValue(Repeat('0', z)) == 0
  {
    if z > 0 {
      ZerosValue(z - 1);
      var t := Repeat('0', z);
      assert t[..|t| - 1] == Repeat('0', z - 1);
    }
  }

  /** String.prototype.substr(start) for a start within the string or past its end. */
  function SubstrFrom(s: string, start: nat): string
  {
    if start <= |s| then s[start..] else []
  }

  /** String.prototype.substr(0, n). */
  function Take(s: string, n: nat): string
  {
    if n <= |s| then s[..n] else s
  }

  /**
   * The characters JavaScript's `\s` class matches: the white space and
   * line terminators of ECMAScript (tab, line feed, vertical tab, form feed,
   * carriage return, space, no-break space, the byte order mark, the line
   * and paragraph separators and the other space separators of Unicode).
   */
  predicate IsSpace(c: char)
  {
    c == ' ' || '\t' <= c <= '\r' || c == '\U{00A0}' || c == '\U{1680}' || '\U{2000}' <= c <= '\U{200A}' ||
    c == '\U{2028}' || c == '\U{2029}' || c == '\U{202F}' || c == '\U{205F}' || c == '\U{3000}' || c == '\U{FEFF}'
  }

  predicate IsBlank(s: string)
  {
    forall i :: 0 <= i < |s| ==> IsSpace(s[i])
  }

  /** The whitespace-free runs of s, in order. */
  function Words(s: string): (ws: seq<string>)
    ensures forall k :: 0 <= k < |ws| ==> ws[k] != [] && forall i :: 0 <= i < |ws[k]| ==> !IsSpace(ws[k][i])
    decreases |s|
  {
    if s == [] then []
    else if IsSpace(s[0]) then Words(s[1..])
    else
      var w := LeadingWord(s);
      [w] + Words(s[|w|..])
  }

  /** The longest prefix of s without whitespace. */
  function LeadingWord(s: string): (w: string)
    ensures |w| <= |s| && w == s[..|w|]
    ensures forall i :: 0 <= i < |w| ==> !IsSpace(w[i])
    ensures s != [] && !IsSpace(s[0]) ==> w != []
  {
    if s == [] || IsSpace(s[0]) then [] else [s[0]] + LeadingWord(s[1..])
  }

  function JoinWithSpaces(ws: seq<string>): string
  {
    if ws == [] then [] else if |ws| == 1 then ws[0] else ws[0] + " " + JoinWithSpaces(ws[1..])
  }

  /**
   * String.prototype.clean: runs of whitespace become one space and the
   * ends are trimmed (`replace(/\s+/g, ' ').trim()`).
   */
  function Clean(s: string): string
  {
    JoinWithSpaces(Words(s))
  }

  /** Cleaning leaves nothing exactly when the text is all whitespace. */
  lemma {:induction false} CleanEmpty(s: string)
    ensures Clean(s) == [] <==> IsBlank(s)
    decreases |s|
  {
    if s != [] {
      if IsSpace(s[0]) {
        CleanEmpty(s[1..]);
        assert Words(s) == Words(s[1..]);
        if IsBlank(s[1..]) {
          assert IsBlank(s) by {
            forall i | 0 <= i < |s| ensures IsSpace(s[i]) {
              if i > 0 { assert s[i] == s[1..][i - 1]; }
            }
          }
        } else {
          var i :| 0 <= i < |s[1..]| && !IsSpace(s[1..][i]);
          assert !IsSpace(s[i + 1]);
        }
      } else {
        var w := LeadingWord(s);
        assert Words(s)[0] == w && w != [];
        assert |JoinWithSpaces(Words(s))| >= |w|;
      }
    }
  }
}
