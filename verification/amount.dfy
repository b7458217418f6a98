/** The page's `extractAmount`: turning whatever a user typed into a cell
    ("$500 (475)", "1,250", "call 3 clients") into a dollar amount, with a
    fixed priority order — blank text, then the first parenthesised number,
    then the leading number of the text stripped of `$`, `,` and whitespace,
    then the last number anywhere, then zero. Amounts are exact reals;
    `parseFloat` is read as the longest prefix of the text that is a decimal
    literal (optional sign, digits, at most one point). */
module Amount {
  import opened Wrappers
  import opened Text

  predicate IsSign(c: char) {
    c == '+' || c == '-'
  }

  // ---------------------------------------------------------------------------
  // Decimal literals: the reference grammar and value
  // ---------------------------------------------------------------------------

  /** Digits and at most one point, with at least one digit: `5`, `5.`,
      `5.25`, `.25`. */
  predicate IsUnsignedLiteral(u: string) {
    && (forall i :: 0 <= i < |u| ==> IsDigit(u[i]) || u[i] == '.')
    && (forall i, j :: 0 <= i < j < |u| && u[i] == '.' ==> u[j] != '.')
    && HasDigit(u)
  }

  predicate IsDecimalLiteral(t: string) {
    if |t| > 0 && IsSign(t[0]) then IsUnsignedLiteral(t[1..]) else IsUnsignedLiteral(t)
  }

  /** Number of characters after the point; 0 when there is no point. */
  function FractionLength(u: string): nat {
    if '.' !in u || u[|u| - 1] == '.' then 0 else 1 + FractionLength(u[..|u| - 1])
  }

  /** `n` divided by ten `k` times: the value of an integer whose last `k`
      digits lie after the point. */
  function Scaled(n: int, k: nat): (r: real)
    ensures n >= 0 ==> r >= 0.0
  {
    if k == 0 then n as real else Scaled(n, k - 1) / 10.0
  }

  /** The mathematical value of an unsigned literal: its digits read as one
      integer, scaled down by the number of digits after the point. */
  function UnsignedValue(u: string): real {
    Scaled(NatValue(Filter(u, IsDigit)), FractionLength(u))
  }

  /** The value of a decimal literal, sign included. */
  function LiteralValue(t: string): real
    requires IsDecimalLiteral(t)
  {
    if |t| > 0 && IsSign(t[0]) then
      (if t[0] == '-' then -UnsignedValue(t[1..]) else UnsignedValue(t[1..]))
    else UnsignedValue(t)
  }

  // ---------------------------------------------------------------------------
  // parseFloat
  // ---------------------------------------------------------------------------

  function SignLength(s: string): nat {
    if |s| > 0 && IsSign(s[0]) then 1 else 0
  }

  /** The scan of a sign-free text: a run of digits, ... */
  function Whole(body: string): nat {
    DigitRun(body)
  }

  /** ... then possibly a point ... */
  predicate Dotted(body: string) {
    Whole(body) < |body| && body[Whole(body)] == '.'
  }

  /** ... and the run of digits after it. */
  function Frac(body: string): (f: nat)
    ensures Dotted(body) ==> Whole(body) + 1 + f <= |body|
    ensures !Dotted(body) ==> f == 0
  {
    if Dotted(body) then DigitRun(body[Whole(body) + 1..]) else 0
  }

  /** The scan, character by character. */
  lemma ScanFacts(body: string)
    ensures forall i :: 0 <= i < Whole(body) ==> IsDigit(body[i])
    ensures Whole(body) < |body| ==> !IsDigit(body[Whole(body)])
    ensures Dotted(body) ==> forall i :: Whole(body) < i <= Whole(body) + Frac(body) ==> IsDigit(body[i])
    ensures Dotted(body) && Whole(body) + 1 + Frac(body) < |body| ==>
              !IsDigit(body[Whole(body) + 1 + Frac(body)])
  {
    var w := Whole(body);
    forall i | 0 <= i < w ensures IsDigit(body[i]) {
      assert body[i] == body[..w][i];
    }
    if Dotted(body) {
      var rest := body[w + 1..];
      var f := Frac(body);
      forall i | w < i <= w + f ensures IsDigit(body[i]) {
        assert body[i] == rest[..f][i - w - 1];
      }
      if w + 1 + f < |body| {
        assert body[w + 1 + f] == rest[f];
      }
    }
  }

  /** The digits after the point that the scan read. */
  function FractionDigits(body: string): (d: string)
    ensures AllDigits(d) && |d| == Frac(body)
  {
    if Dotted(body) then body[Whole(body) + 1..][..Frac(body)] else []
  }

  datatype Reading = Reading(value: real, length: nat)

  /** How much of a sign-free text the scan consumes. */
  function ScanLength(body: string): (k: nat)
    ensures k <= |body|
  {
    Whole(body) + (if Dotted(body) then 1 + Frac(body) else 0)
  }

  /** The value the scan assembles: the whole part plus the fraction digits
      over their power of ten. */
  function Magnitude(body: string): (m: real)
    ensures m >= 0.0
  {
    NatValue(body[..Whole(body)]) as real
      + Scaled(NatValue(FractionDigits(body)), Frac(body))
  }

  /** Scans an optional sign, a run of digits, and a point followed by a run
      of digits; fails when neither run has a digit. */
  function ReadLiteral(s: string): (r: Option<Reading>)
    ensures r.Some? ==> r.value.length <= |s|
  {
    var body := s[SignLength(s)..];
    if Whole(body) == 0 && Frac(body) == 0 then None
    else
      var m := Magnitude(body);
      Some(Reading(if SignLength(s) == 1 && s[0] == '-' then -m else m, SignLength(s) + ScanLength(body)))
  }

  /** JavaScript's `parseFloat`; `None` is NaN. */
  function ParseFloat(s: string): Option<real> {
    match ReadLiteral(s)
    case Some(rd) => Some(rd.value)
    case None => None
  }

  /** The prefix lengths the scan accepts as a literal. */
  predicate ScanAccepts(body: string, k: nat) {
    var w, f := Whole(body), Frac(body);
    (1 <= k <= w) || (Dotted(body) && w + 1 <= k <= w + 1 + f && (w > 0 || k > w + 1))
  }

  lemma AcceptedPrefixIsLiteral(body: string, k: nat)
    requires k <= |body| && ScanAccepts(body, k)
    ensures IsUnsignedLiteral(body[..k])
  {
    ScanFacts(body);
    var w := Whole(body);
    var u := body[..k];
    assert forall i :: 0 <= i < k ==> u[i] == body[i];
    assert forall i :: 0 <= i < k && i != w ==> IsDigit(u[i]);
    if w > 0 {
      assert IsDigit(u[0]);
    } else {
      assert IsDigit(u[1]);
    }
  }

  lemma LiteralPrefixIsAccepted(body: string, k: nat)
    requires k <= |body| && IsUnsignedLiteral(body[..k])
    ensures ScanAccepts(body, k)
  {
    ScanFacts(body);
    var w, f := Whole(body), Frac(body);
    var u := body[..k];
    assert forall i :: 0 <= i < k ==> u[i] == body[i];
  }

  /** A prefix of the text is a literal exactly when the sign-free part of it
      is an unsigned literal. */
  lemma SignedPrefixes(s: string, n: nat)
    requires n <= |s|
    ensures IsDecimalLiteral(s[..n]) <==>
              n >= SignLength(s) && IsUnsignedLiteral(s[SignLength(s)..][..n - SignLength(s)])
  {
    if SignLength(s) == 1 && n >= 1 {
      assert s[..n][1..] == s[1..][..n - 1];
    } else if n == 0 {
      assert !HasDigit(s[..0]);
    } else {
      assert s[0..] == s;
    }
  }

  lemma {:induction false} FractionLengthAfterPoint(a: string, b: string)
    requires '.' !in b
    ensures FractionLength(a + "." + b) == |b|
  {
    var u := a + "." + b;
    assert '.' in u by { assert u[|a|] == '.'; }
    if |b| > 0 {
      assert u[..|u| - 1] == a + "." + b[..|b| - 1];
      assert u[|u| - 1] == b[|b| - 1];
      FractionLengthAfterPoint(a, b[..|b| - 1]);
    } else {
      assert u[|u| - 1] == '.';
    }
  }

  /** The reference value of `a.b` for digit strings `a` and `b`. */
  lemma PointedLiteralValue(a: string, b: string)
    requires AllDigits(a) && AllDigits(b)
    ensures Filter(a + "." + b, IsDigit) == a + b
    ensures FractionLength(a + "." + b) == |b|
  {
    FilterAppend(a + ".", b, IsDigit);
    FilterAppend(a, ".", IsDigit);
    FilterKeepsAll(a, IsDigit);
    FilterKeepsAll(b, IsDigit);
    assert Filter(".", IsDigit) == [];
    assert a + [] == a;
    FractionLengthAfterPoint(a, b);
  }

  lemma {:induction false} ScaledSum(a: int, b: int, k: nat)
    ensures Scaled(a + b, k) == Scaled(a, k) + Scaled(b, k)
    decreases k
  {
    if k > 0 {
      ScaledSum(a, b, k - 1);
    }
  }

  lemma {:induction false} ScaledShift(x: int, k: nat)
    ensures Scaled(x * Pow10(k), k) == x as real
    decreases k
  {
    if k > 0 {
      assert x * Pow10(k) == (10 * x) * Pow10(k - 1);
      ScaledShift(10 * x, k - 1);
    }
  }

  /** Digits `a` then `b`, with `b` after the point, are `a` plus the
      fraction `b`. */
  lemma AppendScaled(a: string, b: string)
    requires AllDigits(a) && AllDigits(b)
    ensures AllDigits(a + b)
    ensures Scaled(NatValue(a + b), |b|) == NatValue(a) as real + Scaled(NatValue(b), |b|)
  {
    NatValueAppend(a, b);
    ScaledSum(NatValue(a) * Pow10(|b|), NatValue(b), |b|);
    ScaledShift(NatValue(a), |b|);
  }

  lemma DottedPrefix(body: string)
    requires Dotted(body)
    ensures body[..ScanLength(body)] == body[..Whole(body)] + "." + FractionDigits(body)
  {
    var w, f := Whole(body), Frac(body);
    var u, fraction := body[..w + 1 + f], body[w + 1..w + 1 + f];
    assert ScanLength(body) == w + 1 + f;
    DropTake(body, w + 1, f);
    forall i | 0 <= i < |u| ensures u[i] == (body[..w] + "." + fraction)[i] {
      if i > w {
        assert fraction[i - w - 1] == body[i];
      }
    }
  }

  lemma UndottedPrefix(body: string)
    requires !Dotted(body)
    ensures body[..ScanLength(body)] == body[..Whole(body)] && FractionDigits(body) == []
  {
  }

  /** The accepted prefix is the digit run, the point and the fraction
      digits. */
  lemma ScannedShape(body: string)
    requires Whole(body) > 0 || Frac(body) > 0
    ensures Filter(body[..ScanLength(body)], IsDigit) == body[..Whole(body)] + FractionDigits(body)
    ensures FractionLength(body[..ScanLength(body)]) == Frac(body)
  {
    var a, fraction := body[..Whole(body)], FractionDigits(body);
    if Dotted(body) {
      DottedPrefix(body);
      PointedLiteralValue(a, fraction);
    } else {
      UndottedPrefix(body);
      assert a + fraction == a;
      FilterKeepsAll(a, IsDigit);
      assert '.' !in a;
    }
  }

  /** The scanned magnitude is the reference value of the scanned unsigned
      literal. */
  lemma MagnitudeIsValue(body: string)
    requires Whole(body) > 0 || Frac(body) > 0
    ensures IsUnsignedLiteral(body[..ScanLength(body)])
    ensures AllDigits(Filter(body[..ScanLength(body)], IsDigit))
    ensures Magnitude(body) == UnsignedValue(body[..ScanLength(body)])
  {
    var u := body[..ScanLength(body)];
    AcceptedPrefixIsLiteral(body, ScanLength(body));
    ScannedShape(body);
    AppendScaled(body[..Whole(body)], FractionDigits(body));
  }

  /** A sign followed by an unsigned literal is a literal of the signed
      value. */
  lemma SignedLiteral(s: string, n: nat)
    requires SignLength(s) <= n <= |s| && IsUnsignedLiteral(s[SignLength(s)..n])
    ensures IsDecimalLiteral(s[..n])
    ensures LiteralValue(s[..n]) == if SignLength(s) == 1 && s[0] == '-'
                                    then -UnsignedValue(s[SignLength(s)..n])
                                    else UnsignedValue(s[SignLength(s)..n])
  {
    var t := s[..n];
    if SignLength(s) == 1 {
      assert t[1..] == s[1..n];
    } else {
      assert t == s[0..n];
    }
  }

  /** What a successful scan reports: the sign and the scanned part, and the
      signed magnitude. */
  lemma ReadLiteralParts(s: string, r: Reading)
    requires ReadLiteral(s) == Some(r)
    ensures var body := s[SignLength(s)..];
            && (Whole(body) > 0 || Frac(body) > 0)
            && r.length == SignLength(s) + ScanLength(body)
            && r.value == if SignLength(s) == 1 && s[0] == '-' then -Magnitude(body) else Magnitude(body)
  {
  }

  /** The scanned value is the value of the scanned literal. */
  lemma LiteralValueOfScan(s: string, r: Reading)
    requires ReadLiteral(s) == Some(r)
    ensures IsDecimalLiteral(s[..r.length])
    ensures r.value == LiteralValue(s[..r.length])
  {
    var sl := SignLength(s);
    var body := s[sl..];
    var k := ScanLength(body);
    var u := s[sl..r.length];
    ReadLiteralParts(s, r);
    assert Magnitude(body) == UnsignedValue(u) && IsUnsignedLiteral(u) by {
      MagnitudeIsValue(body);
      DropTake(s, sl, k);
    }
    SignedLiteral(s, r.length);
  }

  /** No prefix of the sign-free part beyond the scan is a literal, and
      none at all when the scan fails. */
  lemma NoLongerLiteral(s: string, m: nat)
    requires m <= |s|
    requires ReadLiteral(s).Some? ==> ReadLiteral(s).value.length < m
    ensures !IsDecimalLiteral(s[..m])
  {
    var body := s[SignLength(s)..];
    SignedPrefixes(s, m);
    if m >= SignLength(s) && IsUnsignedLiteral(body[..m - SignLength(s)]) {
      LiteralPrefixIsAccepted(body, m - SignLength(s));
    }
  }

  /** `parseFloat` reads the LONGEST prefix that is a decimal literal, and
      yields NaN exactly when no prefix is one. */
  lemma ReadLiteralIsLongest(s: string)
    ensures ReadLiteral(s).None? <==> forall n :: 0 <= n <= |s| ==> !IsDecimalLiteral(s[..n])
    ensures ReadLiteral(s).Some? ==>
              var n := ReadLiteral(s).value.length;
              && IsDecimalLiteral(s[..n])
              && ReadLiteral(s).value.value == LiteralValue(s[..n])
              && forall m :: n < m <= |s| ==> !IsDecimalLiteral(s[..m])
  {
    if ReadLiteral(s).Some? {
      LiteralValueOfScan(s, ReadLiteral(s).value);
    }
    forall m | 0 <= m <= |s| && (ReadLiteral(s).Some? ==> ReadLiteral(s).value.length < m)
      ensures !IsDecimalLiteral(s[..m])
    {
      NoLongerLiteral(s, m);
    }
  }

  /** A whole literal reads as its own value. */
  lemma ParseFloatOfLiteral(t: string)
    requires IsDecimalLiteral(t)
    ensures ParseFloat(t) == Some(LiteralValue(t))
  {
    ReadLiteralIsLongest(t);
    assert t[..|t|] == t;
  }

  /** Text that starts with a digit always reads as a non-negative number. */
  lemma ParseFloatDigitStart(s: string)
    requires |s| > 0 && IsDigit(s[0])
    ensures ParseFloat(s).Some? && ParseFloat(s).value >= 0.0
  {
    assert s[0..] == s;
  }

  /** The scan of a plain digit string takes all of it. */
  lemma DigitsScan(s: string)
    requires AllDigits(s)
    ensures Whole(s) == |s| && !Dotted(s) && ScanLength(s) == |s|
    ensures Magnitude(s) == NatValue(s) as real
  {
    assert Whole(s) == |s|;
    assert FractionDigits(s) == [] && Frac(s) == 0;
    assert NatValue(FractionDigits(s)) == 0 && Scaled(0, 0) == 0.0;
    assert s[..|s|] == s;
  }

  /** A plain digit string reads as its integer value. */
  lemma ParseFloatDigits(s: string)
    requires |s| > 0 && AllDigits(s)
    ensures ParseFloat(s) == Some(NatValue(s) as real)
  {
    assert SignLength(s) == 0;
    assert s[0..] == s;
    DigitsScan(s);
  }

  /** `parseFloat` is negative only on text that begins with a minus sign. */
  lemma ParseFloatNegative(s: string)
    requires ParseFloat(s).Some? && ParseFloat(s).value < 0.0
    ensures s[0] == '-'
  {
  }

  /** Text without a digit is NaN to `parseFloat`. */
  lemma ParseFloatNeedsDigit(s: string)
    requires !HasDigit(s)
    ensures ParseFloat(s).None?
  {
    var body := s[SignLength(s)..];
    ScanFacts(body);
    assert forall i :: 0 <= i < |body| ==> body[i] == s[SignLength(s) + i];
  }

  // ---------------------------------------------------------------------------
  // The parenthesised number: /\((\d+(?:,?\d+)*(?:\.\d+)?)\)/
  // ---------------------------------------------------------------------------

  /** `\d+(?:,?\d+)*`: digits, with single commas only between digits. */
  predicate IsGroupedDigits(a: string) {
    && |a| > 0 && IsDigit(a[0]) && IsDigit(a[|a| - 1])
    && (forall i :: 0 <= i < |a| ==> IsDigit(a[i]) || a[i] == ',')
    && (forall i :: 0 <= i < |a| - 1 && a[i] == ',' ==> a[i + 1] != ',')
  }

  /** `(?:\.\d+)?`: nothing, or a point and at least one digit. */
  predicate IsFractionPart(f: string) {
    f == [] || (|f| >= 2 && f[0] == '.' && AllDigits(f[1..]))
  }

  /** The capture group of the parenthesis pattern. */
  predicate IsParenBody(t: string) {
    exists p :: 0 <= p <= |t| && IsGroupedDigits(t[..p]) && IsFractionPart(t[p..])
  }

  /** The pattern matches at `i`, closing at `k`. */
  predicate ParenMatchAt(s: string, i: int, k: int) {
    0 <= i < k < |s| && s[i] == '(' && s[k] == ')' && IsParenBody(s[i + 1..k])
  }

  lemma ParenBodyShape(t: string)
    requires IsParenBody(t)
    ensures |t| > 0 && IsDigit(t[0])
    ensures forall i :: 0 <= i < |t| ==> IsDigit(t[i]) || t[i] == ',' || t[i] == '.'
  {
    var p :| 0 <= p <= |t| && IsGroupedDigits(t[..p]) && IsFractionPart(t[p..]);
    assert t[0] == t[..p][0];
    forall i | 0 <= i < |t| ensures IsDigit(t[i]) || t[i] == ',' || t[i] == '.' {
      if i < p { assert t[i] == t[..p][i]; } else if i > p { assert t[i] == t[p..][1..][i - p - 1]; }
    }
  }

  /** Index of the first `)` at or after `j`. */
  function CloseFrom(s: string, j: nat): (r: Option<nat>)
    ensures r.Some? ==> j <= r.value < |s| && s[r.value] == ')'
                        && forall q :: j <= q < r.value ==> s[q] != ')'
    ensures r.None? ==> forall q :: j <= q < |s| ==> s[q] != ')'
    decreases |s| - j
  {
    if j >= |s| then None
    else if s[j] == ')' then Some(j)
    else CloseFrom(s, j + 1)
  }

  /** The regular expression engine's search: try each start position from
      `i` on, leftmost first. */
  function ParenGroupFrom(s: string, i: nat): (r: Option<string>)
    ensures r.Some? ==> IsParenBody(r.value)
    decreases |s| - i
  {
    if i >= |s| then None
    else if s[i] == '(' && CloseFrom(s, i + 1).Some? && IsParenBody(s[i + 1..CloseFrom(s, i + 1).value]) then
      Some(s[i + 1..CloseFrom(s, i + 1).value])
    else ParenGroupFrom(s, i + 1)
  }

  function FirstParenGroup(s: string): Option<string> {
    ParenGroupFrom(s, 0)
  }

  /** A match closes at the first `)` after its `(`: the group holds none. */
  lemma ParenMatchCloses(s: string, i: int, k: int)
    requires ParenMatchAt(s, i, k)
    ensures CloseFrom(s, i + 1) == Some(k)
  {
    ParenBodyShape(s[i + 1..k]);
    forall q | i + 1 <= q < k ensures s[q] != ')' {
      assert s[q] == s[i + 1..k][q - i - 1];
    }
  }

  /** A match opens with a digit. */
  lemma ParenMatchHasDigit(s: string, i: int, k: int)
    requires ParenMatchAt(s, i, k)
    ensures IsDigit(s[i + 1])
  {
    ParenBodyShape(s[i + 1..k]);
    assert s[i + 1] == s[i + 1..k][0];
  }

  lemma {:induction false} ParenGroupFromNone(s: string, j: nat)
    ensures ParenGroupFrom(s, j).None? <==> forall i, k :: j <= i ==> !ParenMatchAt(s, i, k)
    decreases |s| - j
  {
    if j < |s| {
      ParenGroupFromNone(s, j + 1);
      var c := CloseFrom(s, j + 1);
      if s[j] == '(' && c.Some? && IsParenBody(s[j + 1..c.value]) {
        assert ParenMatchAt(s, j, c.value);
      } else {
        forall k | ParenMatchAt(s, j, k) ensures false {
          ParenMatchCloses(s, j, k);
        }
      }
    }
  }

  /** There is a parenthesised number exactly when the pattern matches
      somewhere. */
  lemma FirstParenGroupNone(s: string)
    ensures FirstParenGroup(s).None? <==> forall i, k :: !ParenMatchAt(s, i, k)
  {
    ParenGroupFromNone(s, 0);
  }

  /** The search from `j` finds the leftmost match at or after `j`. */
  lemma {:induction false} ParenGroupFromFinds(s: string, j: nat, i: int, k: int)
    requires j <= i && ParenMatchAt(s, i, k)
    requires forall i', k' :: j <= i' < i ==> !ParenMatchAt(s, i', k')
    ensures ParenGroupFrom(s, j) == Some(s[i + 1..k])
    decreases i - j
  {
    if j == i {
      ParenMatchCloses(s, i, k);
    } else {
      var c := CloseFrom(s, j + 1);
      if c.Some? {
        assert !ParenMatchAt(s, j, c.value);
      }
      ParenGroupFromFinds(s, j + 1, i, k);
    }
  }

  /** Text without `(` has no parenthesised number. */
  lemma {:induction false} NoParenNoGroup(s: string, j: nat)
    requires '(' !in s
    ensures ParenGroupFrom(s, j).None?
    decreases |s| - j
  {
    if j < |s| {
      assert s[j] in s;
      NoParenNoGroup(s, j + 1);
    }
  }

  predicate NotComma(c: char) {
    c != ','
  }

  /** Digits followed by an optional fraction form a decimal literal that
      starts with a digit. */
  lemma DigitsThenFraction(a: string, f: string)
    requires |a| > 0 && AllDigits(a) && IsFractionPart(f)
    ensures IsDecimalLiteral(a + f) && IsDigit((a + f)[0])
  {
    var d := a + f;
    assert forall i :: |a| < i < |d| ==> d[i] == f[1..][i - |a| - 1];
    assert forall i :: 0 <= i < |d| && d[i] == '.' ==> i == |a|;
    assert IsDigit(d[0]);
    assert IsUnsignedLiteral(d);
  }

  lemma FractionKeeps(f: string)
    requires IsFractionPart(f)
    ensures Filter(f, NotComma) == f
  {
    if f != [] {
      assert forall i :: 1 <= i < |f| ==> f[i] == f[1..][i - 1];
    }
    FilterKeepsAll(f, NotComma);
  }

  /** Grouped digits with their commas removed are plain digits. */
  lemma StrippedDigits(a: string)
    requires IsGroupedDigits(a)
    ensures |Filter(a, NotComma)| > 0 && AllDigits(Filter(a, NotComma))
  {
    var da := Filter(a, NotComma);
    FilterPreserves(a, NotComma, c => IsDigit(c) || c == ',');
    assert da[0] == a[0];
  }

  /** The group with its commas removed is a decimal literal. */
  lemma StrippedGroupShape(g: string)
    requires IsParenBody(g)
    ensures IsDecimalLiteral(Filter(g, NotComma))
    ensures |Filter(g, NotComma)| > 0 && IsDigit(Filter(g, NotComma)[0])
  {
    var p :| 0 <= p <= |g| && IsGroupedDigits(g[..p]) && IsFractionPart(g[p..]);
    var a, f := g[..p], g[p..];
    var da := Filter(a, NotComma);
    assert Filter(g, NotComma) == da + f by {
      assert g == a + f;
      FilterAppend(a, f, NotComma);
      FractionKeeps(f);
    }
    StrippedDigits(a);
    DigitsThenFraction(da, f);
  }

  /** The group with its commas removed, read by `parseFloat`. */
  function GroupValue(g: string): (v: real)
    requires IsParenBody(g)
    ensures v >= 0.0
  {
    var digits := Filter(g, NotComma);
    StrippedGroupShape(g);
    ParseFloatDigitStart(digits);
    ParseFloat(digits).value
  }

  // ---------------------------------------------------------------------------
  // The last number anywhere: /\d+(?:\.\d+)?/g
  // ---------------------------------------------------------------------------

  /** What one match of `\d+(?:\.\d+)?` looks like. */
  predicate IsNumberToken(m: string) {
    exists p :: 1 <= p <= |m| && AllDigits(m[..p]) && IsFractionPart(m[p..])
  }

  /** Length of the match at the front of `u`, which starts with a digit:
      greedy digits, then a point only when a digit follows it. */
  function MatchLength(u: string): (n: nat)
    requires |u| > 0 && IsDigit(u[0])
    ensures 0 < n <= |u| && IsDigit(u[n - 1])
    ensures IsNumberToken(u[..n])
  {
    var w := DigitRun(u);
    if w + 1 < |u| && u[w] == '.' && IsDigit(u[w + 1]) then
      var n := w + 1 + DigitRun(u[w + 1..]);
      assert u[w + 1..n] == u[w + 1..][..n - w - 1];
      assert u[..n][..w] == u[..w];
      assert u[..n][w..][1..] == u[w + 1..n];
      n
    else
      assert u[..w][w..] == [];
      w
  }

  /** End of the match that starts at digit position `i`. */
  function NumberEnd(s: string, i: nat): (e: nat)
    requires i < |s| && IsDigit(s[i])
    ensures i < e <= |s| && IsDigit(s[e - 1])
    ensures IsNumberToken(s[i..e])
  {
    var n := MatchLength(s[i..]);
    assert s[i..][..n] == s[i..i + n];
    i + n
  }

  /** Global matching from `i` on, remembering the latest match. */
  function LastNumberFrom(s: string, i: nat, last: Option<string>): (r: Option<string>)
    requires last.None? || IsNumberToken(last.value)
    ensures r.Some? ==> IsNumberToken(r.value)
    decreases |s| - i
  {
    if i >= |s| then last
    else if IsDigit(s[i]) then
      var e := NumberEnd(s, i);
      LastNumberFrom(s, e, Some(s[i..e]))
    else LastNumberFrom(s, i + 1, last)
  }

  function LastNumber(s: string): Option<string> {
    LastNumberFrom(s, 0, None)
  }

  /** `m` sits in `s` right before position `e`, ends with a digit, and no
      digit follows it. */
  predicate EndsLastDigit(s: string, m: string, e: int) {
    && 0 < e <= |s| && |m| <= e && s[e - |m|..e] == m && IsDigit(s[e - 1])
    && forall q :: e <= q < |s| ==> !IsDigit(s[q])
  }

  lemma {:induction false} LastNumberFromEnds(s: string, i: nat, last: Option<string>)
    requires last.None? || IsNumberToken(last.value)
    ensures (forall q :: i <= q < |s| ==> !IsDigit(s[q])) ==> LastNumberFrom(s, i, last) == last
    ensures (exists q :: i <= q < |s| && IsDigit(s[q])) ==>
              LastNumberFrom(s, i, last).Some? &&
              exists e :: i < e && EndsLastDigit(s, LastNumberFrom(s, i, last).value, e)
    decreases |s| - i
  {
    if i < |s| {
      if IsDigit(s[i]) {
        var e := NumberEnd(s, i);
        LastNumberFromEnds(s, e, Some(s[i..e]));
        if forall q :: e <= q < |s| ==> !IsDigit(s[q]) {
          assert EndsLastDigit(s, s[i..e], e);
        }
      } else {
        LastNumberFromEnds(s, i + 1, last);
      }
    }
  }

  /** Positions without a digit leave the latest match as it is. */
  lemma {:induction false} SkipNonDigits(s: string, i: nat, j: nat, last: Option<string>)
    requires i <= j <= |s|
    requires last.None? || IsNumberToken(last.value)
    requires forall q :: i <= q < j ==> !IsDigit(s[q])
    ensures LastNumberFrom(s, i, last) == LastNumberFrom(s, j, last)
    decreases j - i
  {
    if i < j {
      SkipNonDigits(s, i + 1, j, last);
    }
  }

  /** The last-resort match: there is one exactly when the text has a digit,
      and it ends at the text's last digit. */
  lemma LastNumberIsLast(s: string)
    ensures LastNumber(s).None? <==> !HasDigit(s)
    ensures LastNumber(s).Some? ==> exists e :: EndsLastDigit(s, LastNumber(s).value, e)
  {
    LastNumberFromEnds(s, 0, None);
  }

  /** No stretch of `u` longer than the match at its front is a match. */
  lemma MatchLengthIsLongest(u: string, m: nat)
    requires |u| > 0 && IsDigit(u[0])
    requires MatchLength(u) < m <= |u|
    ensures !IsNumberToken(u[..m])
  {
    var w := DigitRun(u);
    var t := u[..m];
    forall p | 1 <= p <= m ensures !(AllDigits(t[..p]) && IsFractionPart(t[p..])) {
      if p > w {
        assert t[..p][w] == u[w];
      } else if p < w {
        assert u[..w][p] == u[p] == t[p..][0];
      } else if m - p >= 2 && u[w] == '.' && IsDigit(u[w + 1]) {
        FractionStops(u, t, w, m);
      } else {
        assert t[p..][0] == u[w];
        assert m - p >= 2 ==> t[p..][1..][0] == u[w + 1];
      }
    }
  }

  /** The pointed case of `MatchLengthIsLongest`: the fraction digits stop
      before `m`. */
  lemma FractionStops(u: string, t: string, w: nat, m: nat)
    requires |u| > 0 && IsDigit(u[0]) && w == DigitRun(u)
    requires MatchLength(u) < m <= |u| && t == u[..m]
    requires w + 1 < m && u[w] == '.' && IsDigit(u[w + 1])
    ensures !AllDigits(t[w..][1..])
  {
    var k := DigitRun(u[w + 1..]);
    assert MatchLength(u) == w + 1 + k;
    assert u[w + 1..][k] == u[w + 1 + k] == t[w..][1..][k];
  }

  /** The match is greedy: no longer stretch of `s` from `i` is a match. */
  lemma NumberEndIsLongest(s: string, i: nat, e': nat)
    requires i < |s| && IsDigit(s[i])
    requires NumberEnd(s, i) < e' <= |s|
    ensures !IsNumberToken(s[i..e'])
  {
    assert s[i..][..e' - i] == s[i..e'];
    MatchLengthIsLongest(s[i..], e' - i);
  }

  /** Matching from `e + k` in `s` is matching from `k` in what follows
      position `e`: a match only looks ahead. */
  lemma NumberEndShift(s: string, e: nat, k: nat)
    requires e + k < |s| && IsDigit(s[e + k])
    ensures NumberEnd(s, e + k) == e + NumberEnd(s[e..], k)
  {
    assert s[e + k..] == s[e..][k..];
  }

  /** A slice of a suffix is a slice of the whole. */
  lemma SuffixSlice(s: string, e: nat, a: nat, b: nat)
    requires e + b <= |s| && a <= b
    ensures s[e..][a..b] == s[e + a..e + b]
  {
  }

  lemma {:induction false} ScanShift(s: string, e: nat, k: nat, last: Option<string>)
    requires e <= |s|
    requires last.None? || IsNumberToken(last.value)
    ensures LastNumberFrom(s, e + k, last) == LastNumberFrom(s[e..], k, last)
    decreases |s| - e - k
  {
    if e + k < |s| {
      if IsDigit(s[e + k]) {
        NumberEndShift(s, e, k);
        var f := NumberEnd(s[e..], k);
        SuffixSlice(s, e, k, f);
        ScanShift(s, e, f, Some(s[e..][k..f]));
      } else {
        ScanShift(s, e, k + 1, last);
      }
    }
  }

  /** With a digit still ahead, the match remembered so far is forgotten. */
  lemma {:induction false} ScanForgets(s: string, k: nat, q: nat, last: Option<string>)
    requires k <= q < |s| && IsDigit(s[q])
    requires last.None? || IsNumberToken(last.value)
    ensures LastNumberFrom(s, k, last) == LastNumberFrom(s, k, None)
    decreases q - k
  {
    if !IsDigit(s[k]) {
      ScanForgets(s, k + 1, q, last);
    }
  }

  /** How global matching proceeds: the first match starts at the first
      digit and runs as far as `NumberEnd` (the longest match there); the
      search resumes right after it, so the last match is the last one of
      the rest, or this one when the rest holds no digit. With
      `NumberEndIsLongest` this determines `LastNumber` on every text. */
  lemma LastNumberStep(s: string, i: nat)
    requires i < |s| && IsDigit(s[i])
    requires forall q :: 0 <= q < i ==> !IsDigit(s[q])
    ensures var e := NumberEnd(s, i);
      LastNumber(s) == if HasDigit(s[e..]) then LastNumber(s[e..]) else Some(s[i..e])
  {
    var e := NumberEnd(s, i);
    SkipNonDigits(s, 0, i, None);
    if HasDigit(s[e..]) {
      var q :| 0 <= q < |s[e..]| && IsDigit(s[e..][q]);
      ScanForgets(s, e, e + q, Some(s[i..e]));
      ScanShift(s, e, 0, None);
    } else {
      assert forall q :: e <= q < |s| ==> s[q] == s[e..][q - e];
      LastNumberFromEnds(s, e, Some(s[i..e]));
    }
  }

  /** A match read by `parseFloat`. */
  function TokenValue(m: string): (v: real)
    requires IsNumberToken(m)
    ensures v >= 0.0
  {
    var p :| 1 <= p <= |m| && AllDigits(m[..p]) && IsFractionPart(m[p..]);
    assert IsDigit(m[..p][0]);
    ParseFloatDigitStart(m);
    ParseFloat(m).value
  }

  // ---------------------------------------------------------------------------
  // extractAmount
  // ---------------------------------------------------------------------------

  /** Characters the third step strips: `/[$,\s]/g`. */
  predicate IsNoise(c: char) {
    c == '$' || c == ',' || IsSpace(c)
  }

  predicate NotNoise(c: char) {
    !IsNoise(c)
  }

  function Cleaned(text: string): string {
    Filter(text, NotNoise)
  }

  /** Blank text is worth nothing; anything else goes through the three
      readings in turn. */
  function ExtractAmount(text: string): (r: real)
    ensures IsBlank(text) ==> r == 0.0
    ensures r < 0.0 ==> FirstParenGroup(text).None? && |Cleaned(text)| > 0 && Cleaned(text)[0] == '-'
  {
    TrimEmptyIffBlank(text);
    if Trim(text) == [] then 0.0 else ReadAmount(text)
  }

  /** First reading: the first parenthesised number. */
  function ReadAmount(text: string): (r: real)
    ensures r < 0.0 ==> FirstParenGroup(text).None? && |Cleaned(text)| > 0 && Cleaned(text)[0] == '-'
  {
    match FirstParenGroup(text)
    case Some(g) => GroupValue(g)
    case None => CleanedAmount(text)
  }

  /** Second reading: `parseFloat` of the cleaned text. */
  function CleanedAmount(text: string): (r: real)
    ensures r < 0.0 ==> |Cleaned(text)| > 0 && Cleaned(text)[0] == '-'
  {
    match ParseFloat(Cleaned(text))
    case Some(v) =>
      if v < 0.0 then ParseFloatNegative(Cleaned(text)); v else v
    case None => LastNumberAmount(text)
  }

  /** Third reading: the last number anywhere, or zero. */
  function LastNumberAmount(text: string): (r: real)
    ensures r >= 0.0
  {
    match LastNumber(text)
    case Some(m) => TokenValue(m)
    case None => 0.0
  }

  // ---------------------------------------------------------------------------
  // Properties of extractAmount
  // ---------------------------------------------------------------------------

  /** The first parenthesised number decides, whatever other digits the
      text holds. */
  lemma ParenthesisedWins(s: string, i: int, k: int)
    requires ParenMatchAt(s, i, k)
    requires forall i', k' :: 0 <= i' < i ==> !ParenMatchAt(s, i', k')
    ensures ExtractAmount(s) == GroupValue(s[i + 1..k])
  {
    ParenGroupFromFinds(s, 0, i, k);
    TrimEmptyIffBlank(s);
    assert !IsSpace(s[i]);
  }

  /** The group's value is the literal left once its commas are removed. */
  lemma GroupValueIsLiteral(g: string)
    requires IsParenBody(g)
    ensures IsDecimalLiteral(Filter(g, NotComma))
    ensures GroupValue(g) == LiteralValue(Filter(g, NotComma))
  {
    StrippedGroupShape(g);
    ParseFloatOfLiteral(Filter(g, NotComma));
  }

  /** Text with no digit in it is worth nothing. */
  lemma NoDigitNoAmount(s: string)
    requires !HasDigit(s)
    ensures ExtractAmount(s) == 0.0
  {
    FirstParenGroupNone(s);
    forall i, k | ParenMatchAt(s, i, k) ensures IsDigit(s[i + 1]) {
      ParenMatchHasDigit(s, i, k);
    }
    var c := Cleaned(s);
    FilterPreserves(s, NotNoise, c => !IsDigit(c));
    ParseFloatNeedsDigit(c);
    LastNumberIsLast(s);
  }

  lemma {:induction false} FilterAgree(d: string)
    requires forall i :: 0 <= i < |d| ==> IsDigit(d[i]) || d[i] == ','
    ensures Filter(d, NotComma) == Filter(d, NotNoise)
    ensures AllDigits(Filter(d, NotComma))
  {
    if |d| > 0 {
      FilterAgree(d[1..]);
    }
  }

  /** Text with no `(` and no blank whose cleaned form reads as the digit
      string `digits` is worth those digits. */
  lemma CleanedDigitsRead(s: string, digits: string)
    requires '(' !in s && !IsBlank(s)
    requires Cleaned(s) == digits && |digits| > 0 && AllDigits(digits)
    ensures ExtractAmount(s) == NatValue(digits) as real
  {
    NoParenNoGroup(s, 0);
    TrimEmptyIffBlank(s);
    ParseFloatDigits(digits);
  }

  /** A figure written with optional thousands separators is worth its
      digits: `1,250` gives 1250. */
  lemma PlainFigure(d: string)
    requires IsGroupedDigits(d)
    ensures AllDigits(Filter(d, NotComma))
    ensures ExtractAmount(d) == NatValue(Filter(d, NotComma)) as real
  {
    var digits := Filter(d, NotComma);
    FilterAgree(d);
    assert digits[0] == d[0];
    assert '(' !in d;
    assert !IsSpace(d[0]);
    CleanedDigitsRead(d, digits);
  }

  /** The same figure after a dollar sign is worth the same: `$1,250` gives
      1250. */
  lemma DollarFigure(d: string)
    requires IsGroupedDigits(d)
    ensures AllDigits(Filter(d, NotComma))
    ensures ExtractAmount("$" + d) == NatValue(Filter(d, NotComma)) as real
  {
    var digits := Filter(d, NotComma);
    FilterAgree(d);
    assert digits[0] == d[0];
    var t := "$" + d;
    FilterAppend("$", d, NotNoise);
    assert Cleaned(t) == digits;
    assert '(' !in t by {
      assert '(' !in d;
    }
    assert !IsSpace(t[0]);
    CleanedDigitsRead(t, digits);
  }

  /** Text with nothing to strip is its own cleaned form. */
  lemma CleanedKeeps(s: string)
    requires forall i :: 0 <= i < |s| ==> IsDigit(s[i]) || IsSign(s[i]) || s[i] == '.'
    ensures Cleaned(s) == s
  {
    FilterKeepsAll(s, NotNoise);
  }

  /** A plain digit string is an unsigned literal worth its integer value. */
  lemma DigitsLiteral(d: string)
    requires |d| > 0 && AllDigits(d)
    ensures IsUnsignedLiteral(d) && UnsignedValue(d) == NatValue(d) as real
  {
    assert IsDigit(d[0]);
    FilterKeepsAll(d, IsDigit);
    assert '.' !in d;
  }

  lemma NegatedDigits(s: string)
    requires |s| >= 2 && s[0] == '-' && AllDigits(s[1..])
    ensures ParseFloat(s) == Some(-(NatValue(s[1..]) as real))
  {
    assert s[1..|s|] == s[1..] && s[..|s|] == s;
    DigitsLiteral(s[1..]);
    SignedLiteral(s, |s|);
    ParseFloatOfLiteral(s);
  }

  /** With no parenthesised number, the cleaned text's `parseFloat` decides
      when it reads something. */
  lemma CleanedReadingDecides(s: string, v: real)
    requires !IsBlank(s) && FirstParenGroup(s).None?
    requires ParseFloat(Cleaned(s)) == Some(v)
    ensures ExtractAmount(s) == v
  {
    TrimEmptyIffBlank(s);
  }

  /** With no parenthesised number and nothing `parseFloat` reads in the
      cleaned text, the last number in the text decides. */
  lemma LastNumberDecides(s: string, m: string)
    requires !IsBlank(s) && FirstParenGroup(s).None?
    requires ParseFloat(Cleaned(s)).None? && LastNumber(s) == Some(m)
    ensures ExtractAmount(s) == TokenValue(m)
  {
    TrimEmptyIffBlank(s);
  }

  /** A number token is a decimal literal and is worth its literal
      value. */
  lemma TokenValueIsLiteral(m: string)
    requires IsNumberToken(m)
    ensures IsDecimalLiteral(m) && TokenValue(m) == LiteralValue(m)
  {
    var p :| 1 <= p <= |m| && AllDigits(m[..p]) && IsFractionPart(m[p..]);
    DigitsThenFraction(m[..p], m[p..]);
    assert m[..p] + m[p..] == m;
    ParseFloatOfLiteral(m);
  }

  /** A minus sign before a digit string holds no group, no blank and
      nothing to strip. */
  lemma NegatedShape(s: string)
    requires |s| >= 2 && s[0] == '-' && AllDigits(s[1..])
    ensures FirstParenGroup(s).None? && !IsBlank(s) && Cleaned(s) == s
  {
    assert forall i :: 0 <= i < |s| ==> s[i] == '-' || IsDigit(s[i]) by {
      forall i | 1 <= i < |s| ensures IsDigit(s[i]) {
        assert s[i] == s[1..][i - 1];
      }
    }
    NoParenNoGroup(s, 0);
    assert !IsSpace(s[0]);
    CleanedKeeps(s);
  }

  /** A minus sign before a figure is kept: `-5` gives -5. */
  lemma NegativeFigure(s: string)
    requires |s| >= 2 && s[0] == '-' && AllDigits(s[1..])
    ensures ExtractAmount(s) == -(NatValue(s[1..]) as real)
  {
    NegatedShape(s);
    NegatedDigits(s);
    CleanedReadingDecides(s, -(NatValue(s[1..]) as real));
  }

  /** A figure among words counts when the words carry no digit and the
      text does not open with something `parseFloat` reads: `call 3 clients`
      gives 3. */
  lemma FigureAmongWords(a: string, d: string, b: string)
    requires |a| > 0 && !IsNoise(a[0]) && !IsSign(a[0]) && !IsDigit(a[0]) && a[0] != '.'
    requires !HasDigit(a) && !HasDigit(b) && '(' !in a && '(' !in b
    requires |d| > 0 && AllDigits(d)
    ensures ExtractAmount(a + d + b) == NatValue(d) as real
  {
    var s := a + d + b;
    assert s[0] == a[0];
    assert FirstParenGroup(s).None? by {
      assert forall q :: 0 <= q < |s| ==> s[q] in a || s[q] in d || s[q] in b;
      assert '(' !in d;
      NoParenNoGroup(s, 0);
    }
    assert Trim(s) != [] by {
      TrimEmptyIffBlank(s);
      assert !IsSpace(s[0]);
    }
    WordStartIsNaN(s);
    LastNumberAmongWords(a, d, b);
    assert ExtractAmount(s) == TokenValue(d);
    ParseFloatDigits(d);
  }

  /** The only number in digit-free words is the last one. */
  lemma LastNumberAmongWords(a: string, d: string, b: string)
    requires !HasDigit(a) && !HasDigit(b)
    requires |d| > 0 && AllDigits(d)
    ensures LastNumber(a + d + b) == Some(d)
  {
    var s := a + d + b;
    var i, e := |a|, |a| + |d|;
    assert s[i..e] == d;
    assert forall q :: 0 <= q < i ==> s[q] == a[q];
    assert forall q :: e <= q < |s| ==> s[q] == b[q - e];
    SkipNonDigits(s, 0, i, None);
    FigureEnd(s, i, e);
    LastNumberFromEnds(s, e, Some(d));
  }

  /** Text whose first character is kept by the cleaning and starts no
      number is NaN to the second reading. */
  lemma WordStartIsNaN(s: string)
    requires |s| > 0 && !IsNoise(s[0]) && !IsSign(s[0]) && !IsDigit(s[0]) && s[0] != '.'
    ensures ParseFloat(Cleaned(s)).None?
  {
    var c := Cleaned(s);
    assert c[0] == s[0];
    assert SignLength(c) == 0 && c[0..] == c;
  }

  /** The match starting at `i` runs to `e` when the digits stop there and
      no digit follows. */
  lemma FigureEnd(s: string, i: nat, e: nat)
    requires i < e <= |s| && AllDigits(s[i..e])
    requires forall q :: e <= q < |s| ==> !IsDigit(s[q])
    ensures IsDigit(s[i]) && NumberEnd(s, i) == e
  {
    assert IsDigit(s[i..e][0]);
    var r := s[i..];
    assert r[..e - i] == s[i..e];
    assert forall q :: 0 <= q < e - i ==> IsDigit(r[q]);
    DigitRunOf(r, e - i);
    assert e - i < |r| ==> r[e - i] == s[e];
  }

}
