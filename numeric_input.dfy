/** The two ways createUser turns the strings of its request body into ids: JavaScript's
    `parseInt(s, 10)` for the subordinate ids, and PostgreSQL's input function for `integer`
    when a string is compared with the `id` column. */
module NumericInput {
  import opened Common

  predicate IsDigit(c: char) {
    '0' <= c <= '9'
  }

  predicate AllDigits(s: string) {
    forall i | 0 <= i < |s| :: IsDigit(s[i])
  }

  function DigitValue(c: char): (d: nat)
    requires IsDigit(c)
    ensures d < 10
  {
    (c as int) - ('0' as int)
  }

  /** The value of a run of decimal digits. */
  function DigitsValue(ds: string): nat
    requires AllDigits(ds)
  {
    if ds == [] then 0 else DigitsValue(ds[..|ds| - 1]) * 10 + DigitValue(ds[|ds| - 1])
  }

  /** The length of the run of digits `s` starts with. */
  function LeadingDigits(s: string): (n: nat)
    ensures n <= |s|
    ensures AllDigits(s[..n])
    ensures n < |s| ==> !IsDigit(s[n])
  {
    if s == [] || !IsDigit(s[0]) then 0
    else
      var n := 1 + LeadingDigits(s[1..]);
      assert s[..n] == [s[0]] + s[1..][..n - 1];
      n
  }

  /** The sign a string starts with, if any, and what follows it. */
  function SignOf(s: string): (r: (int, string))
    ensures r.0 == -1 || r.0 == 1
    ensures |s| > 0 && s[0] == '-' ==> r == (-1, s[1..])
    ensures |s| > 0 && s[0] == '+' ==> r == (1, s[1..])
    ensures (|s| == 0 || (s[0] != '-' && s[0] != '+')) ==> r == (1, s)
  {
    if |s| > 0 && s[0] == '-' then (-1, s[1..])
    else if |s| > 0 && s[0] == '+' then (1, s[1..])
    else (1, s)
  }

  /** `parseInt(s, 10)`: an optional sign, then as many digits as follow; `None` stands for
      NaN, the result when no digit follows. Leading white space is not modelled. */
  function ParseInt(s: string): (r: Option<int>)
    ensures r.None? <==> LeadingDigits(SignOf(s).1) == 0
    ensures r.Some? && |s| > 0 && s[0] == '-' ==> r.value <= 0
    ensures r.Some? && (|s| == 0 || s[0] != '-') ==> r.value >= 0
  {
    var (sign, body) := SignOf(s);
    var n := LeadingDigits(body);
    if n == 0 then None else Some(sign * DigitsValue(body[..n]))
  }

  const Int4Min: int := -0x8000_0000
  const Int4Max: int := 0x7fff_ffff

  predicate InInt4(n: int) {
    Int4Min <= n <= Int4Max
  }

  /** A JavaScript number sent where PostgreSQL expects an `integer`: NaN and values outside
      32 bits are refused. */
  function AsInt4(n: Option<int>): (r: Result<int, Error>)
    ensures r.Success? <==> n.Some? && InInt4(n.value)
    ensures r.Success? ==> r.value == n.value
    ensures r.Failure? ==> r.error.QueryFailed?
  {
    match n
    case None => Failure(QueryFailed("invalid input syntax for type integer: \"NaN\""))
    case Some(v) => if InInt4(v) then Success(v) else Failure(QueryFailed("value out of range for type integer"))
  }

  /** PostgreSQL's input function for `integer`: an optional sign and one or more digits, the
      whole string, in the 32-bit range. Surrounding white space, and the underscores and radix
      prefixes that newer servers accept, are not modelled. */
  function PgInt4(s: string): (r: Result<int, Error>)
    ensures r.Success? ==> InInt4(r.value) && ParseInt(s) == Some(r.value)
    ensures r.Success? ==> SignOf(s).1 != [] && AllDigits(SignOf(s).1)
    ensures r.Failure? ==> r.error.QueryFailed?
  {
    var (sign, body) := SignOf(s);
    if body == [] || !AllDigits(body) then Failure(QueryFailed("invalid input syntax for type integer"))
    else
      assert body[..LeadingDigits(body)] == body by {
        if LeadingDigits(body) < |body| {
          assert false;
        }
      }
      var v := sign * DigitsValue(body);
      if InInt4(v) then Success(v) else Failure(QueryFailed("value out of range for type integer"))
  }

  /** `String(n)` for a natural number: its decimal digits, without leading zeros. */
  function Decimal(n: nat): (s: string)
    ensures |s| > 0 && AllDigits(s)
    ensures s[0] != '-' && s[0] != '+'
    decreases n
  {
    var last := ['0' + (n % 10) as char];
    if n < 10 then last else Decimal(n / 10) + last
  }

  lemma {:induction false} DecimalValue(n: nat)
    ensures DigitsValue(Decimal(n)) == n
    decreases n
  {
    var s := Decimal(n);
    if n >= 10 {
      DecimalValue(n / 10);
      assert s[..|s| - 1] == Decimal(n / 10);
    }
  }

  /** `parseInt` reads back the decimal form of a number, whatever non-digit text follows it. */
  lemma ParseIntReadsDecimal(n: nat, tail: string)
    requires tail == [] || !IsDigit(tail[0])
    ensures ParseInt(Decimal(n) + tail) == Some(n)
  {
    var s := Decimal(n) + tail;
    assert SignOf(s) == (1, s);
    assert LeadingDigits(s) == |Decimal(n)| by {
      LeadingDigitsOfRun(Decimal(n), tail);
    }
    assert s[..|Decimal(n)|] == Decimal(n);
    DecimalValue(n);
  }

  lemma {:induction false} LeadingDigitsOfRun(ds: string, tail: string)
    requires AllDigits(ds)
    requires tail == [] || !IsDigit(tail[0])
    ensures LeadingDigits(ds + tail) == |ds|
    decreases |ds|
  {
    if ds != [] {
      assert (ds + tail)[1..] == ds[1..] + tail;
      LeadingDigitsOfRun(ds[1..], tail);
    }
  }

  /** PostgreSQL reads back the decimal form of every non-negative 32-bit integer, and refuses
      the decimal form of anything larger. */
  lemma PgInt4ReadsDecimal(n: nat)
    ensures n <= Int4Max ==> PgInt4(Decimal(n)) == Success(n)
    ensures n > Int4Max ==> PgInt4(Decimal(n)).Failure?
  {
    var s := Decimal(n);
    assert SignOf(s) == (1, s);
    DecimalValue(n);
  }

  /** `parseInt` reads a leading minus sign: it negates the digits that follow, whatever
      non-digit text follows them. */
  lemma ParseIntReadsNegative(n: nat, tail: string)
    requires tail == [] || !IsDigit(tail[0])
    ensures ParseInt("-" + (Decimal(n) + tail)) == Some(-(n as int))
  {
    var body := Decimal(n) + tail;
    var s := "-" + body;
    assert s[1..] == body;
    assert LeadingDigits(body) == |Decimal(n)| by {
      LeadingDigitsOfRun(Decimal(n), tail);
    }
    assert body[..|Decimal(n)|] == Decimal(n);
    DecimalValue(n);
  }

  /** The two readers part ways on trailing text: `parseInt` stops at the first non-digit and
      reads the number, while PostgreSQL refuses the whole string. */
  lemma PgInt4RefusesTrailingText(n: nat, tail: string)
    requires tail != [] && !IsDigit(tail[0])
    ensures PgInt4(Decimal(n) + tail).Failure?
    ensures ParseInt(Decimal(n) + tail) == Some(n)
  {
    var s := Decimal(n) + tail;
    assert SignOf(s) == (1, s);
    assert s[|Decimal(n)|] == tail[0];
    ParseIntReadsDecimal(n, tail);
  }

  /** PostgreSQL reads a negative decimal down to the least 32-bit integer, and refuses the
      negative decimal of anything smaller. */
  lemma PgInt4ReadsNegative(n: nat)
    ensures n <= 0x8000_0000 ==> PgInt4("-" + Decimal(n)) == Success(-(n as int))
    ensures n > 0x8000_0000 ==> PgInt4("-" + Decimal(n)).Failure?
  {
    var s := "-" + Decimal(n);
    assert s[1..] == Decimal(n);
    DecimalValue(n);
  }
}
