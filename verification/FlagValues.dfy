/**
The values of flags and their text form: what pflag prints a value as, and what strconv reads back.
 */
module FlagValues {
  import opened Options
  import ContextText

  // ---------------------------------------------------------------- values

  datatype Value = Text(text: string) | Bool(on: bool) | Int(n: int) | Other(kind: string, printed: string)

  const STRING_TYPE := "string"
  const BOOL_TYPE := "bool"
  const INT_TYPE := "int"

  /** Go's int on a 64-bit platform. */
  const MIN_INT: int := -0x8000_0000_0000_0000
  const MAX_INT: int := 0x7FFF_FFFF_FFFF_FFFF

  predicate InRange(n: int) {
    MIN_INT <= n <= MAX_INT
  }

  function TypeOf(v: Value): string {
    match v
    case Text(_) => STRING_TYPE
    case Bool(_) => BOOL_TYPE
    case Int(_) => INT_TYPE
    case Other(kind, _) => kind
  }

  predicate WellTyped(v: Value) {
    && (v.Int? ==> InRange(v.n))
    && (v.Other? ==> v.kind !in {STRING_TYPE, BOOL_TYPE, INT_TYPE})
  }

  // ---------------------------------------------------------------- numbers and booleans as text

  function Digits(n: nat): (s: string)
    ensures s != "" && forall i :: 0 <= i < |s| ==> '0' <= s[i] <= '9'
  {
    if n < 10 then ['0' + n as char] else Digits(n / 10) + ['0' + (n % 10) as char]
  }

  /** strconv.Itoa. */
  function Itoa(n: int): string {
    if n < 0 then ['-'] + Digits(-n) else Digits(n)
  }

  predicate AllDigits(s: string) {
    s != "" && forall i :: 0 <= i < |s| ==> '0' <= s[i] <= '9'
  }

  function Number(s: string): int
    requires forall i :: 0 <= i < |s| ==> '0' <= s[i] <= '9'
  {
    if s == "" then 0 else Number(s[..|s| - 1]) * 10 + (s[|s| - 1] as int - '0' as int)
  }

  /** strconv.Atoi. */
  function Atoi(s: string): Option<int> {
    var digits := if s != "" && (s[0] == '-' || s[0] == '+') then s[1..] else s;
    if !AllDigits(digits) then None
    else
      var n := if s[0] == '-' then -Number(digits) else Number(digits);
      if InRange(n) then Some(n) else None
  }

  lemma {:induction false} NumberOfDigits(n: nat)
    ensures Number(Digits(n)) == n
  {
    var s := Digits(n);
    if n < 10 {
      assert s[..|s| - 1] == "";
    } else {
      NumberOfDigits(n / 10);
      assert s[..|s| - 1] == Digits(n / 10);
    }
  }

  /** The text of an integer reads back as that integer. */
  lemma {:induction false} AtoiOfItoa(n: int)
    requires InRange(n)
    ensures Atoi(ContextText.TrimSpace(Itoa(n))) == Some(n)
  {
    hide Number, Digits;
    var s, digits := Itoa(n), Digits(if n < 0 then -n else n);
    NumberOfDigits(if n < 0 then -n else n);
    assert s[|s| - 1] == digits[|digits| - 1];
    assert ContextText.TrimSpace(s) == s;
    assert n < 0 ==> s[1..] == digits;
  }

  /** Base 10, a sign in front, nothing else. */
  lemma {:induction false} AtoiReads(s: string)
    ensures Atoi(s).Some? ==>
              && s != "" && (s[0] in "+-" ==> |s| > 1)
              && (forall i :: 1 <= i < |s| ==> '0' <= s[i] <= '9') && (s[0] in "+-" || '0' <= s[0] <= '9')
              && -0x8000_0000_0000_0000 <= Atoi(s).value < 0x8000_0000_0000_0000
    ensures Atoi("0") == Some(0) && Atoi("+7") == Some(7) && Atoi("-42") == Some(-42) && Atoi("010") == Some(10)
  {
    hide Number;
    SmallNumbers();
    assert "+7"[1..] == "7" && "-42"[1..] == "42";
  }

  lemma SmallNumbers()
    ensures Number("0") == 0 && Number("7") == 7 && Number("42") == 42 && Number("010") == 10
  {
    assert "0"[..0] == "" && "7"[..0] == "" && "42"[..1] == "4" && "4"[..0] == "";
    assert "010"[..2] == "01" && "01"[..1] == "0";
    assert Number("4") == 4 && Number("01") == 1;
  }

  /** The text that integers and booleans are printed as. */
  lemma PrintedReads()
    ensures Printed(Int(-42)) == "-42" && Printed(Int(0)) == "0"
    ensures Printed(Bool(true)) == "true" && Printed(Bool(false)) == "false"
  {
    assert Digits(4) == "4" && Digits(42) == "42";
  }

  /** strconv.ParseBool. */
  function ParseBool(s: string): Option<bool> {
    if s in {"1", "t", "T", "TRUE", "true", "True"} then Some(true)
    else if s in {"0", "f", "F", "FALSE", "false", "False"} then Some(false)
    else None
  }

  /** Value.String(). */
  function Printed(v: Value): string {
    match v
    case Text(text) => text
    case Bool(on) => if on then "true" else "false"
    case Int(n) => Itoa(n)
    case Other(_, printed) => printed
  }
}
