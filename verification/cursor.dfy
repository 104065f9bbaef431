/** The activity cursor `block:index` as text (crates/store/src/models.rs). */
module CursorText {
  import opened Wrappers

  // ----- decimal integers, as `Display` writes them and `FromStr` reads them

  function DigitOf(n: nat): char
    requires n < 10
  {
    '0' + n as char
  }

  function Digits(n: nat): string {
    if n < 10 then [DigitOf(n)] else Digits(n / 10) + [DigitOf(n % 10)]
  }

  function PrintInt(n: int): string {
    if n < 0 then "-" + Digits(-n) else Digits(n)
  }

  function ValueOf(s: string): Option<nat> {
    if s == "" then Some(0)
    else
      var c := s[|s| - 1];
      match ValueOf(s[..|s| - 1])
      case Some(front) => if '0' <= c <= '9' then Some(10 * front + (c - '0') as nat) else None
      case None => None
  }

  function Bounded(n: int, bound: int): Option<int> {
    if -bound <= n < bound then Some(n) else None
  }

  /** An optional sign, then digits, at least one; out of range is an error. */
  function ParseInt(s: string, bound: int): (r: Option<int>)
    ensures r.Some? ==> -bound <= r.value < bound
  {
    if s == "" then None
    else if s[0] == '-' || s[0] == '+' then
      if |s| == 1 || ValueOf(s[1..]).None? then None
      else if s[0] == '-' then Bounded(0 - ValueOf(s[1..]).value, bound)
      else Bounded(ValueOf(s[1..]).value, bound)
    else if ValueOf(s).None? then None
    else Bounded(ValueOf(s).value, bound)
  }

  predicate AllDigits(s: string) {
    forall i :: 0 <= i < |s| ==> '0' <= s[i] <= '9'
  }

  lemma {:induction false} DigitsRead(n: nat)
    ensures Digits(n) != "" && AllDigits(Digits(n)) && ValueOf(Digits(n)) == Some(n)
  {
    var s := Digits(n);
    if n >= 10 {
      DigitsRead(n / 10);
      assert s[..|s| - 1] == Digits(n / 10);
    } else {
      assert s[..|s| - 1] == "";
      assert ValueOf("") == Some(0);
    }
  }

  lemma PrintedReads(n: int, bound: int)
    requires -bound <= n < bound
    ensures ParseInt(PrintInt(n), bound) == Some(n)
    ensures ':' !in PrintInt(n)
  {
    var d := Digits(if n < 0 then -n else n);
    DigitsRead(if n < 0 then -n else n);
    assert PrintInt(n)[1..] == d || PrintInt(n) == d;
    assert d[0] != '-' && d[0] != '+';
  }

  /** What decimal digits mean. */
  function Numeral(s: string): int {
    if s == "" then 0 else 10 * Numeral(s[..|s| - 1]) + (s[|s| - 1] as int - '0' as int)
  }

  lemma {:induction false} DigitsMean(n: nat)
    ensures Digits(n) != "" && AllDigits(Digits(n)) && Numeral(Digits(n)) == n && (Digits(n)[0] == '0' <==> n == 0)
  {
    var s := Digits(n);
    if n >= 10 {
      DigitsMean(n / 10);
      assert s[..|s| - 1] == Digits(n / 10);
    } else {
      assert s[..|s| - 1] == "";
    }
  }

  /** An integer is a minus sign if it is negative, and its digits without leading zeros. */
  lemma PrintedIs(n: int)
    ensures var digits := if n < 0 && PrintInt(n) != "" then PrintInt(n)[1..] else PrintInt(n);
            && (n < 0 ==> "-" <= PrintInt(n))
            && digits != "" && AllDigits(digits) && Numeral(digits) == (if n < 0 then -n else n)
            && (digits[0] == '0' <==> n == 0)
  {
    DigitsMean(if n < 0 then -n else n);
  }

  // ----- the cursor

  datatype Position = Position(block: int, index: int) {
    /** The column types: i64 and i32. */
    predicate Fits() {
      -0x8000_0000_0000_0000 <= block < 0x8000_0000_0000_0000 && -0x8000_0000 <= index < 0x8000_0000
    }
  }

  /** `split_once(':')` */
  function SplitOnce(s: string): Option<(string, string)> {
    if s == "" then None
    else if s[0] == ':' then Some(("", s[1..]))
    else match SplitOnce(s[1..])
      case None => None
      case Some(parts) => Some(([s[0]] + parts.0, parts.1))
  }

  lemma {:induction false} SplitsAtFirst(a: string, b: string)
    requires ':' !in a
    ensures SplitOnce(a + ":" + b) == Some((a, b))
  {
    var s := a + ":" + b;
    if a == "" {
      assert s[1..] == b;
    } else {
      assert s[1..] == a[1..] + ":" + b;
      SplitsAtFirst(a[1..], b);
      assert s[0] == a[0] && [a[0]] + a[1..] == a;
    }
  }

  function PrintCursor(p: Position): string {
    PrintInt(p.block) + ":" + PrintInt(p.index)
  }

  function ParseCursor(s: string): Option<Position> {
    match SplitOnce(s)
    case None => None
    case Some(parts) =>
      var block, index := ParseInt(parts.0, 0x8000_0000_0000_0000), ParseInt(parts.1, 0x8000_0000);
      if block.Some? && index.Some? then Some(Position(block.value, index.value)) else None
  }

  /** Every position survives being printed and parsed, the whole i64 and i32 ranges included. */
  lemma CursorRoundTrip(p: Position)
    requires p.Fits()
    ensures ParseCursor(PrintCursor(p)) == Some(p)
    ensures PrintCursor(p) == PrintInt(p.block) + [':'] + PrintInt(p.index) && ':' !in PrintInt(p.block) + PrintInt(p.index)
  {
    hide ParseInt, PrintInt;
    PrintedReads(p.block, 0x8000_0000_0000_0000);
    PrintedReads(p.index, 0x8000_0000);
    SplitsAtFirst(PrintInt(p.block), PrintInt(p.index));
  }

  /** No two positions print alike. */
  lemma CursorsDiffer(p: Position, q: Position)
    requires p.Fits() && q.Fits()
    ensures PrintCursor(p) == PrintCursor(q) <==> p == q
  {
    hide PrintCursor, ParseCursor;
    CursorRoundTrip(p);
    CursorRoundTrip(q);
  }
}
