/** Python's `int(text)` in base 10, restricted to ASCII digits: an optional
    `+` or `-`, then digits in groups joined by single underscores
    ("1_000"), leading zeros allowed. A literal with more than
    `MaxStrDigits` digits is refused, as CPython refuses it. */
module PyInt {
  import opened Results

  /** CPython's default limit on the number of digits `int()` converts
      (`sys.get_int_max_str_digits()`); a longer literal raises `ValueError`. */
  const MaxStrDigits: nat := 4300

  predicate IsDigit(c: char) {
    '0' <= c <= '9'
  }

  function DigitValue(c: char): (d: nat)
    requires IsDigit(c)
    ensures d < 10
  {
    (c as int) - ('0' as int)
  }

  function DigitChar(d: nat): (c: char)
    requires d < 10
    ensures IsDigit(c) && DigitValue(c) == d
  {
    ('0' as int + d) as char
  }

  predicate AllDigits(s: string) {
    forall k | 0 <= k < |s| :: IsDigit(s[k])
  }

  /** The number a string of decimal digits denotes, most significant first. */
  function DecimalValue(ds: string): nat
    requires AllDigits(ds)
  {
    if |ds| == 0 then 0
    else DecimalValue(ds[..|ds| - 1]) * 10 + DigitValue(ds[|ds| - 1])
  }

  /** `s` with its underscores removed. */
  function Digits(s: string): (r: string)
    ensures |r| <= |s|
    ensures forall c :: c in r <==> c in s && c != '_'
  {
    if |s| == 0 then []
    else
      var init := Digits(s[..|s| - 1]);
      assert s == s[..|s| - 1] + [s[|s| - 1]];
      if s[|s| - 1] == '_' then init else init + [s[|s| - 1]]
  }

  // ---------------------------------------------------------------------------
  // The accepted grammar, stated declaratively
  // ---------------------------------------------------------------------------

  /** `s[..n]` can begin an unsigned literal: digits and underscores,
      starting with a digit, and no underscore followed by anything but a
      digit. */
  predicate GroupPrefix(s: string, n: nat)
    requires n <= |s|
  {
    && (forall k | 0 <= k < n :: IsDigit(s[k]) || s[k] == '_')
    && (n > 0 ==> IsDigit(s[0]))
    && (forall k | 0 <= k < n - 1 :: s[k] == '_' ==> IsDigit(s[k + 1]))
  }

  /** An unsigned literal: one or more digits, single underscores only
      between two digits. */
  predicate IsUnsignedLiteral(s: string) {
    GroupPrefix(s, |s|) && |s| > 0 && IsDigit(s[|s| - 1])
  }

  predicate IsSign(c: char) {
    c == '+' || c == '-'
  }

  /** A literal `int()` accepts in base 10, before the digit-count limit. */
  predicate IsIntLiteral(s: string) {
    if |s| > 0 && IsSign(s[0]) then IsUnsignedLiteral(s[1..]) else IsUnsignedLiteral(s)
  }

  /** The unsigned part of a literal, after an optional sign. */
  function Magnitude(s: string): string {
    if |s| > 0 && IsSign(s[0]) then s[1..] else s
  }

  lemma UnsignedDigits(s: string)
    requires GroupPrefix(s, |s|)
    ensures AllDigits(Digits(s))
  {
    forall k | 0 <= k < |Digits(s)| ensures IsDigit(Digits(s)[k]) {
      assert Digits(s)[k] in Digits(s);
    }
  }

  /** The value a well-formed literal denotes. */
  function LiteralValue(s: string): int
    requires IsIntLiteral(s)
  {
    UnsignedDigits(Magnitude(s));
    var n: int := DecimalValue(Digits(Magnitude(s)));
    if s[0] == '-' then -n else n
  }

  // ---------------------------------------------------------------------------
  // The parser: one left-to-right scan over the grammar of CPython's `long_from_string_base`
  // ---------------------------------------------------------------------------

  /** Scans `s[i..]`, having accumulated `acc` so far; `afterDigit` says whether
      the previous character was a digit (only then may an underscore follow). */
  function ScanDigits(s: string, i: nat, acc: nat, afterDigit: bool): Option<nat>
    requires i <= |s|
    decreases |s| - i
  {
    if i == |s| then (if afterDigit then Some(acc) else None)
    else if IsDigit(s[i]) then ScanDigits(s, i + 1, acc * 10 + DigitValue(s[i]), true)
    else if s[i] == '_' && afterDigit then ScanDigits(s, i + 1, acc, false)
    else None
  }

  /** `int(s)` for base 10: `None` where Python raises `ValueError`. */
  function ParseInt(s: string): Option<int> {
    var body := Magnitude(s);
    match ScanDigits(body, 0, 0, false)
    case None => None
    case Some(n) =>
      if |Digits(body)| > MaxStrDigits then None
      else Some(if |s| > 0 && s[0] == '-' then -(n as int) else n)
  }

  lemma DigitsSnoc(s: string, i: nat)
    requires i < |s|
    ensures Digits(s[..i + 1]) == if s[i] == '_' then Digits(s[..i]) else Digits(s[..i]) + [s[i]]
  {
    assert s[..i + 1][..i] == s[..i];
  }

  lemma DecimalSnoc(ds: string, c: char)
    requires AllDigits(ds) && IsDigit(c)
    ensures AllDigits(ds + [c])
    ensures DecimalValue(ds + [c]) == DecimalValue(ds) * 10 + DigitValue(c)
  {
    assert (ds + [c])[..|ds|] == ds;
  }

  /** Where the scan stops early, the whole string is not a literal. */
  lemma ScanRejects(s: string, i: nat, afterDigit: bool)
    requires i < |s|
    requires GroupPrefix(s, i)
    requires afterDigit <==> (i > 0 && IsDigit(s[i - 1]))
    requires !IsDigit(s[i]) && !(s[i] == '_' && afterDigit)
    ensures !IsUnsignedLiteral(s)
  {
    if s[i] == '_' && i > 0 {
      assert s[i - 1] == '_';
    }
  }

  /** What the scan knows about the prefix `s[..i]` it has consumed. */
  predicate ScanState(s: string, i: nat, acc: nat, afterDigit: bool)
    requires i <= |s|
  {
    && GroupPrefix(s, i)
    && (afterDigit <==> (i > 0 && IsDigit(s[i - 1])))
    && AllDigits(Digits(s[..i]))
    && acc == DecimalValue(Digits(s[..i]))
  }

  lemma ScanStepDigit(s: string, i: nat, acc: nat, afterDigit: bool)
    requires i < |s| && ScanState(s, i, acc, afterDigit) && IsDigit(s[i])
    ensures ScanState(s, i + 1, acc * 10 + DigitValue(s[i]), true)
  {
    DigitsSnoc(s, i);
    DecimalSnoc(Digits(s[..i]), s[i]);
  }

  lemma ScanStepUnderscore(s: string, i: nat, acc: nat)
    requires i < |s| && ScanState(s, i, acc, true) && s[i] == '_'
    ensures ScanState(s, i + 1, acc, false)
  {
    DigitsSnoc(s, i);
  }

  lemma ScanEnd(s: string, acc: nat, afterDigit: bool)
    requires ScanState(s, |s|, acc, afterDigit)
    ensures IsUnsignedLiteral(s) <==> afterDigit
    ensures AllDigits(Digits(s)) && acc == DecimalValue(Digits(s))
  {
    assert s[..|s|] == s;
  }

  /** The scan from position `i`, given a well-formed prefix `s[..i]` whose
      value is `acc`, accepts exactly the unsigned literals and yields their
      value. */
  lemma {:induction false} ScanDigitsCorrect(s: string, i: nat, acc: nat, afterDigit: bool)
    requires i <= |s|
    requires ScanState(s, i, acc, afterDigit)
    ensures IsUnsignedLiteral(s) ==> AllDigits(Digits(s))
    ensures ScanDigits(s, i, acc, afterDigit)
         == if IsUnsignedLiteral(s) then Some(DecimalValue(Digits(s))) else None
    decreases |s| - i
  {
    if i == |s| {
      ScanEnd(s, acc, afterDigit);
    } else if IsDigit(s[i]) {
      ScanStepDigit(s, i, acc, afterDigit);
      ScanDigitsCorrect(s, i + 1, acc * 10 + DigitValue(s[i]), true);
    } else if s[i] == '_' && afterDigit {
      ScanStepUnderscore(s, i, acc);
      ScanDigitsCorrect(s, i + 1, acc, false);
    } else {
      ScanRejects(s, i, afterDigit);
    }
  }

  /** `ParseInt` accepts exactly the literals of the grammar that stay within
      the digit limit, and yields the value they denote. */
  lemma ParseIntCorrect(s: string)
    ensures ParseInt(s) == if IsIntLiteral(s) && |Digits(Magnitude(s))| <= MaxStrDigits
                           then Some(LiteralValue(s)) else None
  {
    var body := Magnitude(s);
    assert body[..0] == [];
    ScanDigitsCorrect(body, 0, 0, false);
    assert IsIntLiteral(s) <==> IsUnsignedLiteral(body);
  }

  // ---------------------------------------------------------------------------
  // The inverse direction: Python's `str(n)`
  // ---------------------------------------------------------------------------

  /** The shortest decimal representation of `n`. */
  function FormatNat(n: nat): (s: string)
    ensures |s| > 0 && AllDigits(s)
  {
    if n < 10 then [DigitChar(n)]
    else FormatNat(n / 10) + [DigitChar(n % 10)]
  }

  /** `str(n)`: a `-` before negative numbers, no underscores. */
  function FormatInt(n: int): string {
    if n < 0 then "-" + FormatNat(-n) else FormatNat(n)
  }

  lemma {:induction false} FormatNatValue(n: nat)
    ensures DecimalValue(FormatNat(n)) == n
  {
    if n >= 10 {
      FormatNatValue(n / 10);
      DecimalSnoc(FormatNat(n / 10), DigitChar(n % 10));
    }
  }

  lemma {:induction false} DigitsWithoutUnderscores(s: string)
    requires AllDigits(s)
    ensures Digits(s) == s
  {
    if |s| > 0 {
      DigitsWithoutUnderscores(s[..|s| - 1]);
      assert s == s[..|s| - 1] + [s[|s| - 1]];
    }
  }

  /** `int(str(n)) == n` whenever `str(n)` is within the digit limit. */
  lemma ParseFormatRoundTrip(n: int)
    requires |FormatNat(if n < 0 then -n else n)| <= MaxStrDigits
    ensures ParseInt(FormatInt(n)) == Some(n)
  {
    var m: nat := if n < 0 then -n else n;
    var ds := FormatNat(m);
    DigitsWithoutUnderscores(ds);
    FormatNatValue(m);
    assert IsUnsignedLiteral(ds);
    ParseIntCorrect(FormatInt(n));
    if n < 0 {
      assert FormatInt(n)[1..] == ds;
    }
  }

  /** Re-formatting a parsed literal never needs more digits than it had:
      leading zeros and underscores only ever shorten it. */
  lemma {:induction false} FormatNoLonger(ds: string)
    requires |ds| > 0 && AllDigits(ds)
    ensures |FormatNat(DecimalValue(ds))| <= |ds|
  {
    var v := DecimalValue(ds);
    if |ds| > 1 && v >= 10 {
      var init := ds[..|ds| - 1];
      FormatNoLonger(init);
      assert v / 10 == DecimalValue(init);
    }
  }

  /** A value `ParseInt` produced prints within the digit limit again. */
  lemma ParsedValueFits(t: string)
    requires ParseInt(t).Some? && ParseInt(t).value >= 0
    ensures |FormatNat(ParseInt(t).value)| <= MaxStrDigits
  {
    ParseIntCorrect(t);
    var m := Magnitude(t);
    UnsignedDigits(m);
    FormatNoLonger(Digits(m));
    var n := DecimalValue(Digits(m));
    if n > 0 {
      assert ParseInt(t).value == n;
    }
  }
}
