/** The worker count of scripts/publint-all.ts, from the environment override or the machine. */
module ConcurrencyOverride {
  import opened Prelude
  import opened Text

  predicate IsDigit(c: char) {
    '0' <= c <= '9'
  }

  function DigitChar(d: nat): char
    requires d < 10
  {
    "0123456789"[d]
  }

  function DigitValue(c: char): nat
    requires IsDigit(c)
  {
    c as int - '0' as int
  }

  lemma DigitReadsBack(d: nat)
    requires d < 10
    ensures IsDigit(DigitChar(d)) && !IsSpace(DigitChar(d)) && DigitValue(DigitChar(d)) == d
  {
  }

  /** `String` of a number: its decimal text. */
  function DecimalText(n: nat): (text: string)
    ensures text != ""
  {
    if n < 10 then [DigitChar(n)] else DecimalText(n / 10) + [DigitChar(n % 10)]
  }

  predicate AllDigits(text: string) {
    forall i | 0 <= i < |text| :: IsDigit(text[i])
  }

  function Number(text: string): nat
    requires AllDigits(text)
  {
    if text == "" then 0 else 10 * Number(text[..|text| - 1]) + DigitValue(text[|text| - 1])
  }

  /** `Number.parseInt(raw, 10)`: leading white space, a sign, and the longest run of digits; None is NaN. */
  function ParseInt(raw: string): Option<int> {
    var trimmed := raw[SkipWhile(raw, IsSpace)..];
    var signed := trimmed != "" && (trimmed[0] == '-' || trimmed[0] == '+');
    var rest := if signed then trimmed[1..] else trimmed;
    var n := SkipWhile(rest, IsDigit);
    if n == 0 then None
    else
      var magnitude: int := Number(rest[..n]);
      Some(if signed && trimmed[0] == '-' then -magnitude else magnitude)
  }

  /**
   * The override: a safe integer, at least one, written the way `String` writes
   * it. A value too large to be safe is rounded, and no rounding makes it safe.
   */
  function Parsed(raw: string): Option<nat> {
    match ParseInt(raw)
    case None => None
    case Some(v) => if 1 <= v <= MAX_SAFE_INTEGER && DecimalText(v) == raw then Some(v) else None
  }

  /** Digits alone are read whole. */
  lemma ParseDigits(raw: string)
    requires raw != "" && AllDigits(raw)
    ensures ParseInt(raw) == Some(Number(raw))
  {
    assert IsDigit(raw[0]) && !IsSpace(raw[0]) && raw[0] != '-' && raw[0] != '+';
    SkipWhileIs(raw, IsSpace, 0);
    assert raw[0..] == raw;
    SkipWhileIs(raw, IsDigit, |raw|);
    assert raw[..|raw|] == raw;
  }

  lemma {:induction false} NumberOfDecimal(n: nat)
    ensures AllDigits(DecimalText(n)) && Number(DecimalText(n)) == n
  {
    if n >= 10 {
      NumberOfDecimal(n / 10);
      var text := DecimalText(n);
      assert text[..|text| - 1] == DecimalText(n / 10);
      DigitReadsBack(n % 10);
    } else {
      DigitReadsBack(n);
      var text := DecimalText(n);
      assert text[..|text| - 1] == "";
    }
  }

  lemma ParseDecimal(n: nat)
    ensures ParseInt(DecimalText(n)) == Some(n)
  {
    NumberOfDecimal(n);
    ParseDigits(DecimalText(n));
  }

  /** Exactly the plain decimals of safe positive integers are accepted, each as its value. */
  lemma OverrideIsCanonical(raw: string, n: nat)
    ensures Parsed(raw) == Some(n) <==> 1 <= n <= MAX_SAFE_INTEGER && raw == DecimalText(n)
  {
    ParseDecimal(n);
  }

  function Min(a: nat, b: nat): nat {
    if a < b then a else b
  }

  /** `publintConcurrency`; None is its error, and an empty override counts as unset. */
  function PublintConcurrency(total: nat, raw: Option<string>, available: nat): (r: Option<nat>)
    requires available >= 1
    ensures total == 0 ==> r == Some(0)
    ensures total > 0 && r.Some? ==> 1 <= r.value <= total
  {
    if total == 0 then Some(0)
    else if raw.Some? && raw.value != "" then
      match Parsed(raw.value)
      case None => None
      case Some(n) => Some(Min(total, n))
    else Some(Min(total, available))
  }

  /** An override that is no plain decimal of a safe positive integer is rejected. */
  lemma OverrideIsRejected(raw: string)
    ensures Parsed(raw).None? <==> forall n: nat | 1 <= n <= MAX_SAFE_INTEGER :: raw != DecimalText(n)
  {
    forall n: nat ensures Parsed(raw) == Some(n) <==> 1 <= n <= MAX_SAFE_INTEGER && raw == DecimalText(n) {
      OverrideIsCanonical(raw, n);
    }
    if Parsed(raw).Some? { assert raw == DecimalText(Parsed(raw).value); }
  }

  // ---- The decimal text of a number, told digit by digit ----

  function Horner(text: string): int {
    if text == "" then 0 else 10 * Horner(text[..|text| - 1]) + (text[|text| - 1] as int - 48)
  }

  /** Digits only, without a leading zero unless it is the only one, and of this value. */
  ghost predicate Spells(text: string, n: nat) {
    && text != "" && (forall i | 0 <= i < |text| :: '0' <= text[i] <= '9')
    && (text[0] == '0' ==> |text| == 1)
    && Horner(text) == n
  }

  lemma {:induction false} DecimalSpells(n: nat)
    ensures Spells(DecimalText(n), n)
  {
    var text := DecimalText(n);
    if n >= 10 {
      var init := DecimalText(n / 10);
      DecimalSpells(n / 10);
      assert text[..|text| - 1] == init && text[0] == init[0];
      DigitReadsBack(n % 10);
      assert init[..0] == "";
    } else {
      DigitReadsBack(n);
      assert text[..0] == "";
    }
  }

  lemma {:induction false} HornerBounds(text: string)
    requires text != "" && (forall i | 0 <= i < |text| :: '0' <= text[i] <= '9') && text[0] != '0'
    ensures Horner(text) >= 1
  {
    if |text| > 1 { HornerBounds(text[..|text| - 1]); } else { assert text[..0] == ""; }
  }

  lemma LastDigit(q: nat, d: nat)
    requires d < 10
    ensures (10 * q + d) / 10 == q && (10 * q + d) % 10 == d
  {
  }

  lemma OneDigit(text: string, n: nat)
    requires Spells(text, n) && |text| == 1
    ensures text == DecimalText(n)
  {
    assert text[..|text| - 1] == "" && text == [text[0]];
    assert Horner("") == 0 && n == text[0] as int - 48;
    DigitReadsBack(n);
    assert text[0] as int == DigitChar(n) as int;
  }

  lemma {:induction false} OnlyDecimalSpells(text: string, n: nat)
    requires Spells(text, n)
    ensures text == DecimalText(n)
    decreases |text|
  {
    var init, last := text[..|text| - 1], text[|text| - 1];
    if |text| == 1 {
      OneDigit(text, n);
    } else {
      HornerBounds(init);
      LastDigit(Horner(init), last as int - 48);
      OnlyDecimalSpells(init, n / 10);
      assert text == init + [last];
    }
  }

  lemma SpellingIsUnique(raw: string)
    ensures (forall n: nat | 1 <= n <= MAX_SAFE_INTEGER :: raw != DecimalText(n))
            <==> forall n: nat | 1 <= n <= 9007199254740991 :: !Spells(raw, n)
  {
    if n: nat :| 1 <= n <= 9007199254740991 && Spells(raw, n) {
      OnlyDecimalSpells(raw, n);
      assert raw == DecimalText(n);
    }
    if n: nat :| 1 <= n <= MAX_SAFE_INTEGER && raw == DecimalText(n) {
      DecimalSpells(n);
      assert Spells(raw, n);
    }
  }

  /**
   * With targets to lint, an override that spells a safe positive integer gives the smaller of it and
   * the number of targets, and no override or an empty one the same with what is available.
   */
  lemma ConcurrencyIsExact(total: nat, available: nat, raw: string, n: nat)
    requires available >= 1 && total > 0
    ensures Spells(raw, n) && 1 <= n <= 9007199254740991 ==>
              PublintConcurrency(total, Some(raw), available) == Some(if n < total then n else total)
    ensures PublintConcurrency(total, None, available) == Some(if available < total then available else total)
    ensures PublintConcurrency(total, Some(""), available) == Some(if available < total then available else total)
  {
    if Spells(raw, n) {
      OnlyDecimalSpells(raw, n);
      OverrideIsCanonical(raw, n);
    }
  }

  /** With targets to lint, exactly an override that spells no safe positive integer is an error. */
  lemma ConcurrencyFailsExactly(total: nat, raw: Option<string>, available: nat)
    requires available >= 1
    ensures PublintConcurrency(total, raw, available).None?
            <==> total > 0 && raw.Some? && raw.value != "" && forall n: nat | 1 <= n <= 9007199254740991 :: !Spells(raw.value, n)
  {
    if raw.Some? {
      OverrideIsRejected(raw.value);
      SpellingIsUnique(raw.value);
    }
  }
}
