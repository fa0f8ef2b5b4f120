/** The payment `transactionId` built at booking time from the local clock:
    "HealthCare" followed by the year, the 0-based month, the weekday (0 = Sunday), the hour and
    the minute, joined by '-', each written in plain decimal as JavaScript renders a number. */
module TransactionIds {

  /** A clock reading as JavaScript's local-time getters report it:
      `getFullYear`, `getMonth` (0-based), `getDate`, `getDay` (weekday), `getHours`, `getMinutes`, `getSeconds`. */
  datatype DateParts = DateParts(year: nat, month: nat, date: nat, weekday: nat, hour: nat, minute: nat, second: nat)

  const Prefix: string := "HealthCare"

  predicate IsDigits(s: string) {
    forall i :: 0 <= i < |s| ==> '0' <= s[i] <= '9'
  }

  function DigitChar(d: nat): (c: char)
    requires d < 10
    ensures '0' <= c <= '9'
  {
    ('0' as int + d) as char
  }

  function DigitValue(c: char): nat {
    if '0' <= c <= '9' then c as int - '0' as int else 0
  }

  /** Decimal rendering without leading zeros, as `String(n)` for a non-negative integer. */
  function Decimal(n: nat): (s: string)
    ensures |s| > 0 && IsDigits(s)
  {
    if n < 10 then [DigitChar(n)] else Decimal(n / 10) + [DigitChar(n % 10)]
  }

  function DecimalValue(s: string): nat {
    if s == [] then 0 else DecimalValue(s[..|s| - 1]) * 10 + DigitValue(s[|s| - 1])
  }

  /** Reading a rendered number back gives the number: rendering loses nothing. */
  lemma {:induction false} DecimalRoundTrip(n: nat)
    ensures DecimalValue(Decimal(n)) == n
  {
    if n >= 10 {
      var s := Decimal(n);
      assert s[..|s| - 1] == Decimal(n / 10);
      DecimalRoundTrip(n / 10);
    }
  }

  /** The numbers joined by '-'. */
  function Join(ns: seq<nat>): (s: string)
    requires |ns| > 0
  {
    if |ns| == 1 then Decimal(ns[0]) else Decimal(ns[0]) + "-" + Join(ns[1..])
  }

  /** In a digit string followed by '-', that '-' is the first one. */
  lemma FirstDash(u: string, r: string)
    requires IsDigits(u)
    ensures (u + "-" + r)[|u|] == '-'
    ensures forall i :: 0 <= i < |u| ==> (u + "-" + r)[i] != '-'
  {
  }

  /** A digit string followed by '-' is delimited by the first '-'. */
  lemma SplitAtDash(u: string, v: string, r1: string, r2: string)
    requires IsDigits(u) && IsDigits(v)
    requires u + "-" + r1 == v + "-" + r2
    ensures u == v && r1 == r2
  {
    var w := u + "-" + r1;
    FirstDash(u, r1);
    FirstDash(v, r2);
    assert |u| == |v|;
    assert u == w[..|u|];
    assert v == (v + "-" + r2)[..|v|];
    assert r1 == w[|u| + 1..];
    assert r2 == (v + "-" + r2)[|v| + 1..];
  }

  lemma {:induction false} JoinInjective(a: seq<nat>, b: seq<nat>)
    requires |a| == |b| > 0
    requires Join(a) == Join(b)
    ensures a == b
  {
    if |a| == 1 {
      DecimalRoundTrip(a[0]);
      DecimalRoundTrip(b[0]);
      assert a == [a[0]] && b == [b[0]];
    } else {
      SplitAtDash(Decimal(a[0]), Decimal(b[0]), Join(a[1..]), Join(b[1..]));
      DecimalRoundTrip(a[0]);
      DecimalRoundTrip(b[0]);
      JoinInjective(a[1..], b[1..]);
      assert a == [a[0]] + a[1..] && b == [b[0]] + b[1..];
    }
  }

  /** The fields that reach the transaction id; day of month and seconds do not. */
  function IdFields(p: DateParts): seq<nat> {
    [p.year, p.month, p.weekday, p.hour, p.minute]
  }

  function TransactionId(p: DateParts): string {
    Prefix + Join(IdFields(p))
  }

  /** Two bookings get the same transaction id exactly when their clocks agree on
      year, month, weekday, hour and minute. */
  lemma TransactionIdCollision(p: DateParts, q: DateParts)
    ensures TransactionId(p) == TransactionId(q) <==>
      p.year == q.year && p.month == q.month && p.weekday == q.weekday
      && p.hour == q.hour && p.minute == q.minute
  {
    if TransactionId(p) == TransactionId(q) {
      var u, v := Join(IdFields(p)), Join(IdFields(q));
      assert u == TransactionId(p)[|Prefix|..];
      assert v == TransactionId(q)[|Prefix|..];
      JoinInjective(IdFields(p), IdFields(q));
      assert IdFields(p)[0] == IdFields(q)[0] && IdFields(p)[1] == IdFields(q)[1];
      assert IdFields(p)[2] == IdFields(q)[2] && IdFields(p)[3] == IdFields(q)[3];
      assert IdFields(p)[4] == IdFields(q)[4];
    }
  }

  /** Monday 3 March 2025 10:15:00 and Monday 10 March 2025 10:15:59 give the same id. */
  lemma SameWeekdayOneWeekApartCollides()
    ensures TransactionId(DateParts(2025, 2, 3, 1, 10, 15, 0)) == TransactionId(DateParts(2025, 2, 10, 1, 10, 15, 59))
  {
    TransactionIdCollision(DateParts(2025, 2, 3, 1, 10, 15, 0), DateParts(2025, 2, 10, 1, 10, 15, 59));
  }
}
