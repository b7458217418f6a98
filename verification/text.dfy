/** Character-level helpers shared by the date and amount parsers: ASCII
    digits (what `\d` matches in a JavaScript regular expression), the values
    of digit strings, fixed-width zero-padded rendering, and the whitespace set
    that JavaScript's `trim` and `\s` both use. */
module Text {

  // ---------------------------------------------------------------------------
  // Digits and their values
  // ---------------------------------------------------------------------------

  predicate IsDigit(c: char) {
    '0' <= c <= '9'
  }

  predicate AllDigits(s: string) {
    forall i :: 0 <= i < |s| ==> IsDigit(s[i])
  }

  predicate HasDigit(s: string) {
    exists i :: 0 <= i < |s| && IsDigit(s[i])
  }

  function DigitValue(c: char): (v: nat)
    requires IsDigit(c)
    ensures v < 10
  {
    (c as int) - ('0' as int)
  }

  function DigitChar(v: nat): (c: char)
    requires v < 10
    ensures IsDigit(c) && DigitValue(c) == v
  {
    (('0' as int) + v) as char
  }

  function Pow10(n: nat): (r: nat)
    ensures r >= 1
  {
    if n == 0 then 1 else 10 * Pow10(n - 1)
  }

  /** The value of a string of decimal digits, most significant first. */
  function NatValue(s: string): nat
    requires AllDigits(s)
  {
    if |s| == 0 then 0 else NatValue(s[..|s| - 1]) * 10 + DigitValue(s[|s| - 1])
  }

  /** `n` written with exactly `width` digits: zero-padded on the left, and
      reduced modulo 10^width when it does not fit. */
  function PadDigits(n: nat, width: nat): (s: string)
    ensures |s| == width && AllDigits(s)
  {
    if width == 0 then [] else PadDigits(n / 10, width - 1) + [DigitChar(n % 10)]
  }

  /** Length of the run of digits at the front of `s`. */
  function DigitRun(s: string): (n: nat)
    ensures n <= |s|
    ensures AllDigits(s[..n])
    ensures n < |s| ==> !IsDigit(s[n])
  {
    if |s| == 0 || !IsDigit(s[0]) then 0
    else
      var n := 1 + DigitRun(s[1..]);
      assert s[..n] == [s[0]] + s[1..][..n - 1];
      n
  }

  /** The digit run is exactly `n` long when `n` digits are followed by a
      non-digit or the end. */
  lemma DigitRunOf(s: string, n: nat)
    requires n <= |s| && (forall q :: 0 <= q < n ==> IsDigit(s[q]))
    requires n < |s| ==> !IsDigit(s[n])
    ensures DigitRun(s) == n
  {

  }

  /** Reading back a padded rendering gives the number, when it fits. */
  lemma {:induction false} NatValueOfPadDigits(n: nat, width: nat)
    requires n < Pow10(width)
    ensures NatValue(PadDigits(n, width)) == n
  {
    if width > 0 {
      var s := PadDigits(n, width);
      assert s[..width - 1] == PadDigits(n / 10, width - 1);
      NatValueOfPadDigits(n / 10, width - 1);
    }
  }

  /** Rendering a digit string's value at the string's own width gives the
      string back: leading zeros included. */
  lemma {:induction false} PadDigitsOfNatValue(s: string)
    requires AllDigits(s)
    ensures PadDigits(NatValue(s), |s|) == s
  {
    if |s| > 0 {
      var init := s[..|s| - 1];
      PadDigitsOfNatValue(init);
      DivModTen(NatValue(init), DigitValue(s[|s| - 1]));
      assert s == init + [s[|s| - 1]];
    }
  }

  lemma DivModTen(x: nat, d: nat)
    requires d < 10
    ensures (x * 10 + d) / 10 == x && (x * 10 + d) % 10 == d
  {
  }

  /** Splitting a digit string: the front part is shifted by the back part's
      length. */
  lemma {:induction false} NatValueAppend(a: string, b: string)
    requires AllDigits(a) && AllDigits(b)
    ensures AllDigits(a + b)
    ensures NatValue(a + b) == NatValue(a) * Pow10(|b|) + NatValue(b)
  {
    if |b| > 0 {
      var ab := a + b;
      var b' := b[..|b| - 1];
      var d := DigitValue(b[|b| - 1]);
      assert ab[..|ab| - 1] == a + b';
      NatValueAppend(a, b');
      assert NatValue(ab) == NatValue(a + b') * 10 + d;
      assert NatValue(b) == NatValue(b') * 10 + d;
      ShiftDigit(NatValue(a), Pow10(|b'|), NatValue(b'), d);
    } else {
      assert a + b == a;
    }
  }

  lemma ShiftDigit(x: nat, p: nat, y: nat, d: nat)
    ensures (x * p + y) * 10 + d == x * (10 * p) + (y * 10 + d)
  {
  }

  // ---------------------------------------------------------------------------
  // Whitespace and trimming
  // ---------------------------------------------------------------------------

  /** ECMAScript WhiteSpace and LineTerminator code points: the set removed by
      `String.prototype.trim` and matched by `\s`. */
  predicate IsSpace(c: char) {
    || c == '\t' || c == '\n' || c == '\U{000B}' || c == '\U{000C}' || c == '\r'
    || c == ' ' || c == '\U{00A0}' || c == '\U{1680}'
    || ('\U{2000}' <= c <= '\U{200A}')
    || c == '\U{2028}' || c == '\U{2029}' || c == '\U{202F}' || c == '\U{205F}'
    || c == '\U{3000}' || c == '\U{FEFF}'
  }

  /** Empty or whitespace only. */
  predicate IsBlank(s: string) {
    forall i :: 0 <= i < |s| ==> IsSpace(s[i])
  }

  /** Number of whitespace characters at the front of `s`. */
  function BlankPrefix(s: string): (n: nat)
    ensures n <= |s| && IsBlank(s[..n])
    ensures n < |s| ==> !IsSpace(s[n])
  {
    if |s| == 0 || !IsSpace(s[0]) then 0
    else
      var n := 1 + BlankPrefix(s[1..]);
      assert s[..n] == [s[0]] + s[1..][..n - 1];
      n
  }

  /** Number of whitespace characters at the back of `s`. */
  function BlankSuffix(s: string): (n: nat)
    ensures n <= |s| && IsBlank(s[|s| - n..])
    ensures n < |s| ==> !IsSpace(s[|s| - n - 1])
  {
    if |s| == 0 || !IsSpace(s[|s| - 1]) then 0
    else
      var init := s[..|s| - 1];
      var n := 1 + BlankSuffix(init);
      assert s[|s| - n..] == init[|init| - (n - 1)..] + [s[|s| - 1]];
      n
  }

  /** JavaScript's `String.prototype.trim`. */
  function Trim(s: string): (r: string)
  {
    var rest := s[BlankPrefix(s)..];
    rest[..|rest| - BlankSuffix(rest)]
  }

  /** `trim` removes whitespace only, and only from the two ends: the result
      is a slice of the input with blank margins and no whitespace at either
      end. */
  lemma TrimIsCore(s: string)
    ensures exists i, j :: 0 <= i <= j <= |s| && Trim(s) == s[i..j]
                        && IsBlank(s[..i]) && IsBlank(s[j..])
    ensures |Trim(s)| > 0 ==> !IsSpace(Trim(s)[0]) && !IsSpace(Trim(s)[|Trim(s)| - 1])
  {
    var i := BlankPrefix(s);
    var rest := s[i..];
    var j := i + |rest| - BlankSuffix(rest);
    assert Trim(s) == s[i..j];
    assert s[j..] == rest[|rest| - BlankSuffix(rest)..];
  }

  /** The source's `!text.trim()` test: trimming leaves nothing exactly when
      the text is blank. */
  lemma TrimEmptyIffBlank(s: string)
    ensures Trim(s) == [] <==> IsBlank(s)
  {
    var i := BlankPrefix(s);
    var rest := s[i..];
    if IsBlank(s) {
      assert i == |s|;
    }
    if Trim(s) == [] {
      assert BlankSuffix(rest) == |rest|;
      assert rest[|rest| - BlankSuffix(rest)..] == rest;
      assert i == |s|;
      assert s == s[..i];
    }
  }

  /** Trimming twice is trimming once. */
  lemma TrimIdempotent(s: string)
    ensures Trim(Trim(s)) == Trim(s)
  {
    var t := Trim(s);
    TrimIsCore(s);
    assert BlankPrefix(t) == 0;
    assert t[0..] == t;
    assert BlankSuffix(t) == 0;
  }

  // ---------------------------------------------------------------------------
  // Character filters
  // ---------------------------------------------------------------------------

  /** The characters of `s` that `keep` accepts, in order. */
  function Filter(s: string, keep: char -> bool): (r: string)
    ensures |r| <= |s|
    ensures forall i :: 0 <= i < |r| ==> keep(r[i])
  {
    if |s| == 0 then [] else
      var rest := Filter(s[1..], keep);
      assert s == [s[0]] + s[1..];
      if keep(s[0]) then [s[0]] + rest else rest
  }

  /** Dropping `i` characters and then taking `k` is the slice from `i`. */
  lemma DropTake(s: string, i: nat, k: nat)
    requires i + k <= |s|
    ensures s[i..][..k] == s[i..i + k]
  {
  }

  /** Filtering a string whose every character is kept changes nothing. */
  lemma {:induction false} FilterKeepsAll(s: string, keep: char -> bool)
    requires forall i :: 0 <= i < |s| ==> keep(s[i])
    ensures Filter(s, keep) == s
  {
    if |s| > 0 {
      FilterKeepsAll(s[1..], keep);
    }
  }

  /** What holds of every character of `s` holds of every character kept. */
  lemma {:induction false} FilterPreserves(s: string, keep: char -> bool, p: char -> bool)
    requires forall i :: 0 <= i < |s| ==> p(s[i])
    ensures forall i :: 0 <= i < |Filter(s, keep)| ==> p(Filter(s, keep)[i])
  {
    if |s| > 0 {
      FilterPreserves(s[1..], keep, p);
    }
  }

  lemma {:induction false} FilterAppend(a: string, b: string, keep: char -> bool)
    ensures Filter(a + b, keep) == Filter(a, keep) + Filter(b, keep)
  {
    if |a| > 0 {
      assert (a + b)[1..] == a[1..] + b;
      FilterAppend(a[1..], b, keep);
    } else {
      assert a + b == b;
    }
  }
}
