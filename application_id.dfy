/** The public application identifier of `generate_application_id`
    (app.py:105-106): "APP", the local date as `%Y%m%d`, then the first eight
    characters of a random uuid4's text form, upper-cased.

    The clock and the random number are parameters: `today` is the date of
    `datetime.now()`, and `timeLow` the uuid's first 32 bits (its `time_low`
    field), which are exactly what `str(uuid)[:8]` prints as eight lower-case,
    zero-padded hex digits. */
module ApplicationId {

  import opened Records

  datatype Date = Date(year: nat, month: nat, day: nat)

  /** Dates `strftime('%Y%m%d')` renders as exactly eight digits. */
  predicate ValidDate(d: Date)
  {
    1000 <= d.year <= 9999 && 1 <= d.month <= 12 && 1 <= d.day <= 31
  }

  function Pow(b: nat, w: nat): nat
  {
    if w == 0 then 1 else b * Pow(b, w - 1)
  }

  /** The `w` least significant base-`b` digits of `n`, most significant first. */
  function ToDigits(n: nat, w: nat, b: nat): (ds: seq<nat>)
    requires 2 <= b
    ensures |ds| == w
    ensures forall i :: 0 <= i < w ==> ds[i] < b
  {
    if w == 0 then [] else ToDigits(n / b, w - 1, b) + [n % b]
  }

  /** The number a most-significant-first digit string denotes. */
  function FromDigits(ds: seq<nat>, b: nat): nat
  {
    if ds == [] then 0 else FromDigits(ds[..|ds| - 1], b) * b + ds[|ds| - 1]
  }

  lemma PositiveFactor(b: int, x: int)
    requires 0 < b && 0 < b * x
    ensures 0 < x
  {
  }

  lemma DivBelowPow(n: nat, w: nat, b: nat)
    requires 2 <= b && 0 < w && n < Pow(b, w)
    ensures n / b < Pow(b, w - 1)
  {
    var p, q := Pow(b, w - 1), n / b;
    assert b * q <= n < b * p;
    assert b * (p - q) == b * p - b * q;
    PositiveFactor(b, p - q);
  }

  lemma Euclid(n: nat, b: nat)
    requires 2 <= b
    ensures (n / b) * b + n % b == n
  {
  }

  lemma FromDigitsSnoc(ds: seq<nat>, d: nat, b: nat)
    ensures FromDigits(ds + [d], b) == FromDigits(ds, b) * b + d
  {
    assert (ds + [d])[..|ds + [d]| - 1] == ds;
  }

  lemma ToDigitsSnoc(n: nat, w: nat, b: nat)
    requires 2 <= b && 0 < w
    ensures ToDigits(n, w, b) == ToDigits(n / b, w - 1, b) + [n % b]
  {
  }

  /** The last step of the induction: `n` is its quotient and remainder. */
  lemma FromToDigitsStep(n: nat, w: nat, b: nat, ds: seq<nat>)
    requires 2 <= b && 0 < w
    requires ToDigits(n, w, b) == ds + [n % b] && FromDigits(ds, b) == n / b
    ensures FromDigits(ToDigits(n, w, b), b) == n
  {
    FromDigitsSnoc(ds, n % b, b);
    Euclid(n, b);
  }

  /** Rendering `n` in `w` digits loses nothing when `n` fits in `w` digits. */
  lemma {:induction false} FromToDigits(n: nat, w: nat, b: nat)
    requires 2 <= b && n < Pow(b, w)
    ensures FromDigits(ToDigits(n, w, b), b) == n
    decreases w
  {
    if w > 0 {
      ToDigitsSnoc(n, w, b);
      DivBelowPow(n, w, b);
      FromToDigits(n / b, w - 1, b);
      FromToDigitsStep(n, w, b, ToDigits(n / b, w - 1, b));
    }
  }

  function DecimalChar(d: nat): char
    requires d < 10
  {
    ('0' as int + d) as char
  }

  /** One hex digit as Python's uuid text prints it (lower case). */
  function LowerHexChar(d: nat): char
    requires d < 16
  {
    if d < 10 then DecimalChar(d) else ('a' as int + (d - 10)) as char
  }

  /** `str.upper()` on the ASCII letters; the strings it is applied to here
      hold nothing else. */
  function UpperAscii(c: char): char
  {
    if 'a' <= c <= 'z' then (c as int - 32) as char else c
  }

  function Upper(s: string): (u: string)
    ensures |u| == |s| && forall i :: 0 <= i < |s| ==> u[i] == UpperAscii(s[i])
  {
    if s == [] then [] else [UpperAscii(s[0])] + Upper(s[1..])
  }

  function DecimalText(ds: seq<nat>): (t: string)
    requires forall i :: 0 <= i < |ds| ==> ds[i] < 10
    ensures |t| == |ds| && forall i :: 0 <= i < |ds| ==> t[i] == DecimalChar(ds[i])
  {
    if ds == [] then [] else [DecimalChar(ds[0])] + DecimalText(ds[1..])
  }

  function LowerHexText(ds: seq<nat>): (t: string)
    requires forall i :: 0 <= i < |ds| ==> ds[i] < 16
    ensures |t| == |ds| && forall i :: 0 <= i < |ds| ==> t[i] == LowerHexChar(ds[i])
  {
    if ds == [] then [] else [LowerHexChar(ds[0])] + LowerHexText(ds[1..])
  }

  /** `strftime('%Y%m%d')`. */
  function DateText(d: Date): string
    requires ValidDate(d)
  {
    DecimalText(ToDigits(d.year, 4, 10)) + DecimalText(ToDigits(d.month, 2, 10))
      + DecimalText(ToDigits(d.day, 2, 10))
  }

  /** `str(uuid)[:8]`: the `time_low` field as eight lower-case hex digits. */
  function UuidPrefix(timeLow: nat): string
  {
    LowerHexText(ToDigits(timeLow, 8, 16))
  }

  predicate IsDecimalDigit(c: char)
  {
    '0' <= c <= '9'
  }

  predicate IsUpperHexDigit(c: char)
  {
    '0' <= c <= '9' || 'A' <= c <= 'F'
  }

  /** The identifier `generate_application_id` returns on day `today` when the
      random uuid starts with the 32 bits `timeLow`. */
  function GenerateApplicationId(today: Date, timeLow: nat): (id: string)
    requires ValidDate(today) && timeLow < 0x1_0000_0000
    ensures |id| == 19
    ensures id[..3] == "APP"
    ensures forall i :: 3 <= i < 11 ==> IsDecimalDigit(id[i])
    ensures forall i :: 11 <= i < 19 ==> IsUpperHexDigit(id[i])
  {
    "APP" + DateText(today) + Upper(UuidPrefix(timeLow))
  }

  function DecimalValue(c: char): (v: nat)
    ensures v < 10
  {
    if '0' <= c <= '9' then c as int - '0' as int else 0
  }

  function UpperHexValue(c: char): (v: nat)
    ensures v < 16
  {
    if 'A' <= c <= 'F' then c as int - 'A' as int + 10 else DecimalValue(c)
  }

  function DecimalValues(s: string): (ds: seq<nat>)
    ensures |ds| == |s| && forall i :: 0 <= i < |s| ==> ds[i] == DecimalValue(s[i])
  {
    if s == [] then [] else [DecimalValue(s[0])] + DecimalValues(s[1..])
  }

  function UpperHexValues(s: string): (ds: seq<nat>)
    ensures |ds| == |s| && forall i :: 0 <= i < |s| ==> ds[i] == UpperHexValue(s[i])
  {
    if s == [] then [] else [UpperHexValue(s[0])] + UpperHexValues(s[1..])
  }

  lemma MulBound(x: nat, p: nat, b: nat, d: nat)
    requires x < p && d < b
    ensures x * b + d < p * b
  {
    assert x * b <= (p - 1) * b;
  }

  /** A string of base-`b` digits denotes a number below `b` to its length. */
  lemma {:induction false} FromDigitsBound(ds: seq<nat>, b: nat)
    requires forall i :: 0 <= i < |ds| ==> ds[i] < b
    ensures FromDigits(ds, b) < Pow(b, |ds|)
  {
    if ds != [] {
      var init := ds[..|ds| - 1];
      FromDigitsBound(init, b);
      MulBound(FromDigits(init, b), Pow(b, |init|), b, ds[|ds| - 1]);
    }
  }

  /** Reads an identifier back into the date and the uuid prefix it was made
      of, or None when `s` does not have the generator's shape. Whatever it
      reads fits the widths the generator prints. */
  function ParseApplicationId(s: string): (r: Option<(Date, nat)>)
    ensures r.Some? ==> r.value.0.year < 10000 && r.value.0.month < 100 && r.value.0.day < 100
    ensures r.Some? ==> r.value.1 < 0x1_0000_0000
  {
    if |s| == 19 && s[..3] == "APP"
       && (forall i :: 3 <= i < 11 ==> IsDecimalDigit(s[i]))
       && (forall i :: 11 <= i < 19 ==> IsUpperHexDigit(s[i]))
    then
      PowFacts();
      FromDigitsBound(DecimalValues(s[3..7]), 10);
      FromDigitsBound(DecimalValues(s[7..9]), 10);
      FromDigitsBound(DecimalValues(s[9..11]), 10);
      FromDigitsBound(UpperHexValues(s[11..]), 16);
      var date := Date(FromDigits(DecimalValues(s[3..7]), 10),
                       FromDigits(DecimalValues(s[7..9]), 10),
                       FromDigits(DecimalValues(s[9..11]), 10));
      Some((date, FromDigits(UpperHexValues(s[11..]), 16)))
    else None
  }

  lemma DecimalCharValue(d: nat)
    requires d < 10
    ensures DecimalValue(DecimalChar(d)) == d
  {
  }

  lemma UpperHexCharValue(d: nat)
    requires d < 16
    ensures UpperHexValue(UpperAscii(LowerHexChar(d))) == d
  {
  }

  lemma DecimalTextValues(ds: seq<nat>)
    requires forall i :: 0 <= i < |ds| ==> ds[i] < 10
    ensures DecimalValues(DecimalText(ds)) == ds
  {
    var v := DecimalValues(DecimalText(ds));
    forall i | 0 <= i < |ds| ensures v[i] == ds[i] {
      DecimalCharValue(ds[i]);
    }
  }

  lemma UpperHexTextValues(ds: seq<nat>)
    requires forall i :: 0 <= i < |ds| ==> ds[i] < 16
    ensures UpperHexValues(Upper(LowerHexText(ds))) == ds
  {
    var v := UpperHexValues(Upper(LowerHexText(ds)));
    forall i | 0 <= i < |ds| ensures v[i] == ds[i] {
      UpperHexCharValue(ds[i]);
    }
  }

  lemma DecimalRoundTrip(n: nat, w: nat)
    requires n < Pow(10, w)
    ensures FromDigits(DecimalValues(DecimalText(ToDigits(n, w, 10))), 10) == n
  {
    DecimalTextValues(ToDigits(n, w, 10));
    FromToDigits(n, w, 10);
  }

  lemma UpperHexRoundTrip(n: nat, w: nat)
    requires n < Pow(16, w)
    ensures FromDigits(UpperHexValues(Upper(LowerHexText(ToDigits(n, w, 16)))), 16) == n
  {
    UpperHexTextValues(ToDigits(n, w, 16));
    FromToDigits(n, w, 16);
  }

  lemma PowFacts()
    ensures Pow(10, 2) == 100 && Pow(10, 4) == 10000 && Pow(16, 8) == 0x1_0000_0000
  {
    assert Pow(10, 4) == 100 * Pow(10, 2);
    assert Pow(16, 4) == 0x1_0000;
    assert Pow(16, 8) == Pow(16, 4) * Pow(16, 4);
  }

  /** Where each part of the date and of the uuid prefix lies in an identifier. */
  lemma GeneratedSlices(today: Date, timeLow: nat)
    requires ValidDate(today) && timeLow < 0x1_0000_0000
    ensures var id := GenerateApplicationId(today, timeLow);
      && id[3..7] == DecimalText(ToDigits(today.year, 4, 10))
      && id[7..9] == DecimalText(ToDigits(today.month, 2, 10))
      && id[9..11] == DecimalText(ToDigits(today.day, 2, 10))
      && id[11..] == Upper(UuidPrefix(timeLow))
  {
    var y := DecimalText(ToDigits(today.year, 4, 10));
    var m := DecimalText(ToDigits(today.month, 2, 10));
    var d := DecimalText(ToDigits(today.day, 2, 10));
    var h := Upper(UuidPrefix(timeLow));
    assert GenerateApplicationId(today, timeLow) == "APP" + y + m + d + h;
  }

  lemma DateRoundTrip(d: Date)
    requires ValidDate(d)
    ensures FromDigits(DecimalValues(DecimalText(ToDigits(d.year, 4, 10))), 10) == d.year
    ensures FromDigits(DecimalValues(DecimalText(ToDigits(d.month, 2, 10))), 10) == d.month
    ensures FromDigits(DecimalValues(DecimalText(ToDigits(d.day, 2, 10))), 10) == d.day
  {
    PowFacts();
    DecimalRoundTrip(d.year, 4);
    DecimalRoundTrip(d.month, 2);
    DecimalRoundTrip(d.day, 2);
  }

  /** The identifier determines the date and the uuid prefix it was made of. */
  lemma ParseGenerated(today: Date, timeLow: nat)
    requires ValidDate(today) && timeLow < 0x1_0000_0000
    ensures ParseApplicationId(GenerateApplicationId(today, timeLow)) == Some((today, timeLow))
  {
    GeneratedSlices(today, timeLow);
    DateRoundTrip(today);
    PowFacts();
    UpperHexRoundTrip(timeLow, 8);
  }

  /** Two identifiers coincide only when both the day and the 32-bit uuid
      prefix do: uniqueness within one day rests on the random part alone. */
  lemma GenerateInjective(d1: Date, t1: nat, d2: Date, t2: nat)
    requires ValidDate(d1) && t1 < 0x1_0000_0000
    requires ValidDate(d2) && t2 < 0x1_0000_0000
    ensures GenerateApplicationId(d1, t1) == GenerateApplicationId(d2, t2) <==> d1 == d2 && t1 == t2
  {
    ParseGenerated(d1, t1);
    ParseGenerated(d2, t2);
  }
}
