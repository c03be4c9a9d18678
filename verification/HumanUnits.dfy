/**
 The two parsers of memory sizes such as 4096, 4KB or 8MB: one matches a regular
 expression, one collects digits and unit letters in a loop. They accept the same strings
 and return the same value.
 */
module HumanUnits {
  import opened Wrappers

  const WORD := 0x1_0000_0000_0000_0000

  predicate Digit(c: char) { '0' <= c <= '9' }
  predicate UnitChar(c: char) { c in "KMGTB" }

  predicate Digits(s: string) { forall i :: 0 <= i < |s| ==> Digit(s[i]) }

  function Decimal(s: string): nat
    requires Digits(s)
  {
    if s == "" then 0 else Decimal(s[..|s| - 1]) * 10 + (s[|s| - 1] as int - '0' as int)
  }

  /** The factor of a unit, None for an unknown one. */
  function Factor(unit: string): Option<nat> {
    if unit == "" || unit == "B" then Some(1)
    else if unit == "KB" then Some(1024)
    else if unit == "MB" then Some(1024 * 1024)
    else if unit == "GB" then Some(1024 * 1024 * 1024)
    else if unit == "TB" then Some(1024 * 1024 * 1024 * 1024)
    else None
  }

  /** The number read by atol times the factor, in 64-bit arithmetic. A null number stops
      the process. What atol returns beyond the range of long is left open: any function
      of the digits, provided that no digits read as zero. */
  function Value(number: string, unit: string, atol: string -> nat): Option<nat> {
    if atol(number) % WORD == 0 || Factor(unit).None? then None
    else Some((atol(number) * Factor(unit).value) % WORD)
  }

  // ---- the regular expression: ([0-9]+)([KMGT]?B)? ------------------------------------

  predicate UnitText(unit: string) {
    unit == "" || unit == "B" || unit == "KB" || unit == "MB" || unit == "GB" || unit == "TB"
  }

  predicate Matches(s: string, number: string, unit: string) {
    number != "" && Digits(number) && UnitText(unit) && s == number + unit
  }

  /** After a match the unit needs no check: what is none of the four is bytes. */
  function MatchedFactor(unit: string): nat {
    match unit
    case "KB" => 1024
    case "MB" => 1024 * 1024
    case "GB" => 1024 * 1024 * 1024
    case "TB" => 1024 * 1024 * 1024 * 1024
    case _ => 1
  }

  ghost function Regexp(s: string, atol: string -> nat): Option<nat> {
    if exists number, unit :: Matches(s, number, unit) then
      var number, unit :| Matches(s, number, unit);
      if atol(number) % WORD == 0 then None else Some((atol(number) * MatchedFactor(unit)) % WORD)
    else None
  }

  // ---- the loop ------------------------------------------------------------------------

  /** Digits go to the number, unit letters to the unit; no digit may follow a letter. */
  function Split(rest: string, number: string, unit: string): Option<(string, string)> {
    if rest == "" then Some((number, unit))
    else if Digit(rest[0]) then if unit != "" then None else Split(rest[1..], number + [rest[0]], unit)
    else if UnitChar(rest[0]) then Split(rest[1..], number, unit + [rest[0]])
    else None
  }

  function NoRegexp(s: string, atol: string -> nat): Option<nat> {
    match Split(s, "", "")
    case None => None
    case Some((number, unit)) => Value(number, unit, atol)
  }

  method FromHumanMemSize(s: string, atol: string -> nat) returns (r: Option<nat>)
    ensures r == NoRegexp(s, atol)
  {
    var number, unit := "", "";
    var i := 0;
    while i < |s|
      invariant 0 <= i <= |s| && Split(s[i..], number, unit) == Split(s, "", "")
    {
      assert s[i..][1..] == s[i + 1..];
      if Digit(s[i]) {
        if unit != "" { return None; }
        number := number + [s[i]];
      } else if UnitChar(s[i]) {
        unit := unit + [s[i]];
      } else {
        return None;
      }
      i := i + 1;
    }
    r := Value(number, unit, atol);
  }

  // ---- agreement -------------------------------------------------------------------------

  predicate UnitChars(s: string) { forall i :: 0 <= i < |s| ==> UnitChar(s[i]) }

  lemma {:induction false} SplitUnit(u: string, number: string, unit: string)
    requires UnitChars(u)
    ensures Split(u, number, unit) == Some((number, unit + u))
    decreases |u|
  {
    if u == "" {
      assert unit + u == unit;
    } else {
      SplitUnit(u[1..], number, unit + [u[0]]);
      assert unit + [u[0]] + u[1..] == unit + u;
    }
  }

  lemma {:induction false} SplitNumber(n: string, u: string, number: string)
    requires Digits(n) && UnitChars(u)
    ensures Split(n + u, number, "") == Some((number + n, u))
    decreases |n|
  {
    if n == "" {
      assert n + u == u && number + n == number && "" + u == u;
      SplitUnit(u, number, "");
    } else {
      assert (n + u)[1..] == n[1..] + u;
      SplitNumber(n[1..], u, number + [n[0]]);
      assert number + [n[0]] + n[1..] == number + n;
    }
  }

  /** The loop only accepts digits followed by unit letters. */
  lemma {:induction false} SplitShape(rest: string, number: string, unit: string)
    requires Digits(number) && UnitChars(unit)
    ensures var r := Split(rest, number, unit);
      r.Some? ==> Digits(r.value.0) && UnitChars(r.value.1) && number + unit + rest == r.value.0 + r.value.1
    decreases |rest|
  {
    if rest != "" && Split(rest, number, unit).Some? {
      if Digit(rest[0]) {
        SplitShape(rest[1..], number + [rest[0]], unit);
        assert number + [rest[0]] + unit + rest[1..] == number + unit + rest;
      } else {
        SplitShape(rest[1..], number, unit + [rest[0]]);
        assert number + (unit + [rest[0]]) + rest[1..] == number + unit + rest;
      }
    }
  }

  lemma {:induction false} UnitTextChars(unit: string)
    ensures UnitText(unit) <==> Factor(unit).Some?
    ensures UnitText(unit) ==> Factor(unit) == Some(MatchedFactor(unit))
    ensures UnitText(unit) ==> UnitChars(unit)
  {
  }

  /** The two parsers accept exactly the same strings and return the same value, whatever
      atol does with numbers that do not fit. */
  lemma {:induction false} ParsersAgree(s: string, atol: string -> nat)
    requires atol("") == 0
    ensures Regexp(s, atol) == NoRegexp(s, atol)
  {
    if exists n, u :: Matches(s, n, u) {
      var n, u :| Matches(s, n, u) && Regexp(s, atol) == Value(n, u, atol);
      UnitTextChars(u);
      SplitNumber(n, u, "");
      assert "" + n == n;
    } else {
      SplitShape(s, "", "");
      if Split(s, "", "").Some? {
        var (n, u) := Split(s, "", "").value;
        assert "" + "" + s == s;
        UnitTextChars(u);
        assert !Matches(s, n, u);
      }
    }
  }

  // ---- the value ---------------------------------------------------------------------------

  function Power(k: nat): nat { if k == 0 then 1 else 1024 * Power(k - 1) }

  /** The k-th unit letter means the k-th power of 1024; no letter, with or without B, means
      bytes. */
  lemma {:induction false} FactorIs(k: nat)
    requires k < 4
    ensures Factor(["KMGT"[k]] + "B") == Some(Power(k + 1)) && Factor("") == Some(1) == Factor("B")
  {
    assert Power(1) == 1024 * Power(0) && Power(2) == 1024 * Power(1);
    assert Power(3) == 1024 * Power(2) && Power(4) == 1024 * Power(3);
    assert ["KMGT"[0]] + "B" == "KB" && ["KMGT"[1]] + "B" == "MB";
    assert ["KMGT"[2]] + "B" == "GB" && ["KMGT"[3]] + "B" == "TB";
  }

  /** Decimal notation. */
  function Print(n: nat): string {
    if n < 10 then ["0123456789"[n]] else Print(n / 10) + ["0123456789"[n % 10]]
  }

  lemma {:induction false} DecimalInvertsPrint(n: nat)
    ensures Digits(Print(n)) && Print(n) != "" && Decimal(Print(n)) == n
  {
    var p, d := Print(n), "0123456789"[n % 10];
    assert Digit(d) && d as int - '0' as int == n % 10;
    if n < 10 {
      assert p == [d] && p[..0] == "";
    } else {
      DecimalInvertsPrint(n / 10);
      assert p[..|p| - 1] == Print(n / 10) && p[|p| - 1] == d;
    }
  }

  /** Absent overflow, and as long as atol reads decimal notation, the value of a printed
      number with the k-th unit is that number times the k-th power of 1024. */
  lemma {:induction false} ValueIs(n: nat, k: nat, atol: string -> nat)
    requires k <= 4 && 0 < n * Power(k) < WORD && atol("") == 0 && atol(Print(n)) == n
    ensures var unit := if k == 0 then "" else ["KMGT"[k - 1]] + "B";
      NoRegexp(Print(n) + unit, atol) == Some(n * Power(k))
    ensures k == 0 ==> NoRegexp(Print(n) + "B", atol) == Some(n)
  {
    Smaller(n, Power(k));
    if k == 0 {
      FactorIs(0);
      UnitValue(n, "", 1, atol);
      UnitValue(n, "B", 1, atol);
    } else {
      FactorIs(k - 1);
      UnitValue(n, ["KMGT"[k - 1]] + "B", Power(k), atol);
    }
  }

  lemma {:induction false} UnitValue(n: nat, unit: string, factor: nat, atol: string -> nat)
    requires Factor(unit) == Some(factor) && 0 < n < WORD && n * factor < WORD
    requires atol("") == 0 && atol(Print(n)) == n
    ensures NoRegexp(Print(n) + unit, atol) == Some(n * factor)
  {
    var number := Print(n);
    DecimalInvertsPrint(n);
    SplitNumber(number, unit, "");
    assert "" + number == number;
  }

  lemma {:induction false} Smaller(a: nat, b: nat)
    requires 0 < a * b < WORD
    ensures 0 < a < WORD
  {
    assert b != 0;
    assert a * b >= a by { assert a * (b - 1) >= 0; }
  }
}
