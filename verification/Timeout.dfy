/** The `grpc-timeout` header and the choice of the shorter timeout. */
module Timeout {
  import opened Bytes
  import Decimal

  /** Nanoseconds. `Panicked` is a u64 multiplication that does not fit, in a build that checks. */
  datatype Parsed = Missing | Malformed | Panicked | Time(nanos: nat)

  const NANOS_PER_SEC: nat := 1_000_000_000

  /** Seconds in a unit of hours or minutes: the part computed in u64. */
  function SecondsPer(unit: byte): Option<nat> {
    if unit == 72 then Some(3600) else if unit == 77 then Some(60) else if unit == 83 then Some(1) else None
  }

  predicate Visible(s: bytes) {
    forall i :: 0 <= i < |s| ==> 32 <= s[i] < 127 || s[i] == 9
  }

  /** `try_parse_client_timeout`. The product of hours or minutes is a u64: where it does not fit, a
      build with overflow checks panics and any other wraps around. */
  function Parse(header: Option<bytes>, checks: bool): Parsed {
    if header.None? then Missing
    else
      var s := header.value;
      if s == [] || !Visible(s) then Malformed
      else
        match Decimal.ParseU64(s[..|s| - 1])
        case None => Malformed
        case Some(value) =>
          var unit := s[|s| - 1];
          if SecondsPer(unit).Some? then
            var seconds := value * SecondsPer(unit).value;
            if seconds > U64_MAX && checks then Panicked
            else Time(seconds % (U64_MAX + 1) * NANOS_PER_SEC)
          else if unit == 109 then Time(value * 1_000_000)
          else if unit == 117 then Time(value * 1_000)
          else if unit == 110 then Time(value)
          else Malformed
  }

  lemma {:induction false} ValueBound(d: bytes)
    requires Decimal.AllDigits(d)
    ensures Decimal.Value(d) < Decimal.Pow10(|d|)
    decreases |d|
  {
    if d != [] {
      ValueBound(d[..|d| - 1]);
    }
  }

  /** The outcome for a number of seconds that a build may have to compute beyond u64. */
  predicate Scaled(r: Parsed, value: nat, limit: nat, nanos: nat, checks: bool) {
    if value <= limit then r == Time(value * nanos)
    else if checks then r == Panicked
    else r.Time? && r.nanos < value * nanos
  }

  /** For every digit string and every last byte: the value times the unit, in nanoseconds, except
      that hours and minutes above exactly the stated limits panic or come out too short; anything
      that is no u64 followed by one of the six units is malformed. */
  lemma ParseIsExact(digits: bytes, unit: byte, checks: bool)
    requires Decimal.AllDigits(digits)
    ensures var value := Decimal.Value(digits);
            var r := Parse(Some(digits + [unit]), checks);
            if digits == [] || value > U64_MAX then r == Malformed
            else if unit == 'H' as int then Scaled(r, value, U64_MAX / 3600, 3_600_000_000_000, checks)
            else if unit == 'M' as int then Scaled(r, value, U64_MAX / 60, 60_000_000_000, checks)
            else if unit == 'S' as int then r == Time(value * 1_000_000_000)
            else if unit == 'm' as int then r == Time(value * 1_000_000)
            else if unit == 'u' as int then r == Time(value * 1_000)
            else if unit == 'n' as int then r == Time(value)
            else r == Malformed
  {
    hide Decimal.Value, Decimal.ParseU64, Visible;
    var value := Decimal.Value(digits);
    ReadText(digits, unit);
    if digits != [] && value <= U64_MAX {
      Seconds(value, 3600);
      Seconds(value, 60);
      Seconds(value, 1);
    }
  }

  lemma ReadText(digits: bytes, unit: byte)
    requires Decimal.AllDigits(digits)
    ensures var s := digits + [unit];
            && s[|s| - 1] == unit && (Visible(s) <==> 32 <= unit < 127 || unit == 9)
            && Decimal.ParseU64(s[..|s| - 1])
               == if digits == [] || Decimal.Value(digits) > U64_MAX then None else Some(Decimal.Value(digits))
  {
    hide Decimal.Value, Decimal.ParseU64, Decimal.AllDigits;
    var s := digits + [unit];
    assert s[..|s| - 1] == digits && s[|s| - 1] == unit;
    ParseDigitText(digits);
    VisibleText(digits, unit);
  }

  lemma ParseDigitText(digits: bytes)
    requires Decimal.AllDigits(digits)
    ensures Decimal.ParseU64(digits)
         == if digits == [] || Decimal.Value(digits) > U64_MAX then None else Some(Decimal.Value(digits))
  {
    hide Decimal.Value;
    if digits != [] {
      assert Decimal.IsDigit(digits[0]);
    }
  }

  lemma VisibleText(digits: bytes, unit: byte)
    requires Decimal.AllDigits(digits)
    ensures Visible(digits + [unit]) <==> 32 <= unit < 127 || unit == 9
  {
    var s := digits + [unit];
    forall i | 0 <= i < |digits|
      ensures 32 <= s[i] < 127
    {
      assert Decimal.IsDigit(digits[i]);
    }
    assert s[|digits|] == unit;
  }

  lemma Seconds(value: nat, per: nat)
    requires per > 0
    ensures value * per > U64_MAX <==> value > U64_MAX / per
    ensures value * (per * NANOS_PER_SEC) == value * per * NANOS_PER_SEC
    ensures value * per <= U64_MAX ==> value * per % (U64_MAX + 1) == value * per
    ensures value * per > U64_MAX ==>
              value * per % (U64_MAX + 1) * NANOS_PER_SEC < value * per * NANOS_PER_SEC
  {
    Limit(value, per, U64_MAX);
    Wraps(value * per);
    assert value * (per * NANOS_PER_SEC) == value * per * NANOS_PER_SEC;
  }

  lemma Limit(value: nat, per: nat, max: nat)
    requires per > 0
    ensures value * per > max <==> value > max / per
  {
    var limit := max / per;
    assert limit * per <= max < (limit + 1) * per;
    if value <= limit {
      assert value * per <= limit * per;
    } else {
      assert value * per >= (limit + 1) * per;
    }
  }

  lemma Wraps(seconds: nat)
    ensures seconds <= U64_MAX ==> seconds % (U64_MAX + 1) == seconds
    ensures seconds > U64_MAX ==> seconds % (U64_MAX + 1) < seconds
  {
  }

  /** The values the protocol allows, one to eight digits, never overflow. */
  lemma ProtocolValuesFit(digits: bytes, unit: byte, checks: bool)
    requires 1 <= |digits| <= 8 && Decimal.AllDigits(digits)
    ensures var value, r := Decimal.Value(digits), Parse(Some(digits + [unit]), checks);
            && (unit == 'H' as int ==> r == Time(value * 3_600_000_000_000))
            && (unit == 'M' as int ==> r == Time(value * 60_000_000_000))
            && (unit == 'S' as int ==> r == Time(value * 1_000_000_000))
            && (unit == 'm' as int ==> r == Time(value * 1_000_000))
            && (unit == 'u' as int ==> r == Time(value * 1_000))
            && (unit == 'n' as int ==> r == Time(value))
  {
    hide Decimal.Value, Parse;
    ValueBound(digits);
    Pow10Mono(|digits|, 8);
    HundredMillion();
    ParseIsExact(digits, unit, checks);
  }

  lemma HundredMillion()
    ensures Decimal.Pow10(8) == 100_000_000
  {
    assert Decimal.Pow10(2) == 100;
    assert Decimal.Pow10(4) == 10_000;
    assert Decimal.Pow10(6) == 1_000_000;
  }

  lemma {:induction false} Pow10Mono(a: nat, b: nat)
    requires a <= b
    ensures Decimal.Pow10(a) <= Decimal.Pow10(b)
    decreases b
  {
    if a < b {
      Pow10Mono(a, b - 1);
    }
  }

  /** What the layer makes of the two timeouts; `Crash` is the panic of the parser. */
  datatype Applied = Crash | Unlimited | Limited(nanos: nat)

  /** The shorter of the client's and the server's timeout; a missing or malformed header counts as
      none. */
  function Apply(client: Parsed, server: Option<nat>): Applied {
    match (client, server)
    case (Panicked, _) => Crash
    case (Time(t), Some(u)) => Limited(if t < u then t else u)
    case (Time(t), None) => Limited(t)
    case (_, Some(u)) => Limited(u)
    case (_, None) => Unlimited
  }

  lemma AppliedIsLeast(client: Parsed, server: Option<nat>)
    ensures var r := Apply(client, server);
            && (r.Crash? <==> client.Panicked?)
            && (r.Unlimited? <==> (client.Missing? || client.Malformed?) && server.None?)
            && (client.Time? && r.Limited? ==> r.nanos <= client.nanos)
            && (server.Some? && r.Limited? ==> r.nanos <= server.value)
            && (r.Limited? ==> (client.Time? && r.nanos == client.nanos) || Some(r.nanos) == server)
  {
  }
}
