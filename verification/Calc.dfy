/** The calculator engine of user/go/calc/engine.go: wrapping 64-bit arithmetic with overflow
    checks, against the same engine over unbounded integers. */
module Calc {
  import opened Options
  import opened Words

  const MAX: int := 0x7FFF_FFFF_FFFF_FFFF
  const MIN: int := -MAX - 1

  type int64 = x: int | MIN <= x <= MAX

  // ---- the machine's arithmetic ----

  function Add64(a: int64, b: int64): Option<int64> {
    var c := Wrap64(a + b);
    if (b > 0 && c < a) || (b < 0 && c > a) then None else Some(c)
  }

  function Sub64(a: int64, b: int64): Option<int64> {
    var c := Wrap64(a - b);
    if (b > 0 && c > a) || (b < 0 && c < a) then None else Some(c)
  }

  function Mul64(a: int64, b: int64): Option<int64> {
    if a == 0 || b == 0 then Some(0)
    else
      var c := Wrap64(a * b);
      if Wrap64(Quotient(c, a)) != b then None else Some(c)
  }

  /** The exact result, or an error when it does not fit 64 bits. */
  function Checked(x: int): Option<int64> {
    if MIN <= x <= MAX then Some(x) else None
  }

  lemma AddExact(a: int64, b: int64)
    ensures Add64(a, b) == Checked(a + b)
  {
  }

  lemma SubExact(a: int64, b: int64)
    ensures Sub64(a, b) == Checked(a - b)
  {
  }

  lemma QuotientBounds(c: int, a: int)
    requires a != 0
    ensures var q := Quotient(c, a);
            var r := c - q * a;
            -(if a < 0 then -a else a) < r < (if a < 0 then -a else a)
  {
    var q := Quotient(c, a);
    var n, m := if c < 0 then -c else c, if a < 0 then -a else a;
    assert n == n / m * m + n % m;
    assert q * a == if c < 0 then -(n / m * m) else n / m * m;
  }

  lemma Distributes(a: int, b: int, q: int)
    ensures a * b - q * a == a * (b - q)
  {
  }

  lemma QuotientOfProduct(a: int, b: int)
    requires a != 0
    ensures Quotient(a * b, a) == b
  {
    hide Quotient;
    QuotientBounds(a * b, a);
    var q := Quotient(a * b, a);
    var m := if a < 0 then -a else a;
    Distributes(a, b, q);
    var k := if b > q then b - q else q - b;
    assert a * (b - q) == m * k || a * (b - q) == -(m * k);
    if k >= 1 { MulGrows(k, m, 1); }
  }

  lemma QuotientSmaller(c: int, a: int)
    requires MIN <= c <= MAX && a != 0 && !(c == MIN && a == -1)
    ensures MIN <= Quotient(c, a) <= MAX
  {
    var n, m := if c < 0 then -c else c, if a < 0 then -a else a;
    if m == 1 {
      assert n / m == n;
    } else {
      DivideBy2OrMore(n, m);
    }
  }

  /** A product that wraps moves by at least 2^64. */
  lemma WrappedApart(x: int)
    requires !(MIN <= x <= MAX)
    ensures Wrap64(x) - x >= 0x1_0000_0000_0000_0000 || x - Wrap64(x) >= 0x1_0000_0000_0000_0000
  {
  }

  /** The wrapped product passes the division test on exactly one overflowing pair. */
  lemma MulExactly(a: int64, b: int64)
    ensures Mul64(a, b) == Checked(a * b) <==> !(a == -1 && b == MIN)
  {
    hide Quotient;
    if a != 0 && b != 0 {
      var c := Wrap64(a * b);
      if a == -1 && b == MIN {
        assert a * b == -MIN;
        assert c == MIN && Quotient(c, a) == -MIN by { QuotientOfProduct(-1, -MIN); }
      } else if MIN <= a * b <= MAX {
        QuotientOfProduct(a, b);
      } else if c == MIN && a == -1 {
        QuotientOfProduct(-1, -MIN);
        assert Wrap64(-MIN) == MIN;
      } else {
        QuotientSmaller(c, a);
        QuotientBounds(c, a);
        WrappedApart(a * b);
        var q := Quotient(c, a);
        assert q == b ==> q * a == a * b;
      }
    } else {
      assert a * b == 0;
    }
  }

  // ---- the engine, over either arithmetic ----

  datatype Arithmetic = Machine | Exact

  const NO_OP: char := '\0'

  datatype State = State(accum: int64, cur: int64, pending: char, lastOp: char, lastArg: int64, entering: bool,
                         hasErr: bool)

  const START: State := State(0, 0, NO_OP, NO_OP, 0, false, false)
  const ERROR: State := State(0, 0, NO_OP, NO_OP, 0, false, true)

  predicate IsOp(op: char) { op in {'+', '-', '*', '/'} }

  function Binary(m: Arithmetic, op: char, a: int64, b: int64): Option<int64> {
    match op
    case '+' => if m == Machine then Add64(a, b) else Checked(a + b)
    case '-' => if m == Machine then Sub64(a, b) else Checked(a - b)
    case '*' => if m == Machine then Mul64(a, b) else Checked(a * b)
    case '/' =>
      if m == Machine then (if b == 0 || (a == MIN && b == -1) then None else Some(Wrap64(Quotient(a, b))))
      else if b == 0 then None else Checked(Quotient(a, b))
    case _ => Some(b)
  }

  /** evalBinary: an error clears everything; a committed operation is remembered for `=`. */
  function Apply(m: Arithmetic, s: State, op: char, a: int64, b: int64): State {
    match Binary(m, op, a, b)
    case None => ERROR
    case Some(res) =>
      var t := if s.pending != NO_OP then s.(lastOp := op, lastArg := b) else s;
      t.(accum := res, cur := res, pending := NO_OP, entering := false)
  }

  function Evaluate(m: Arithmetic, s: State): State {
    if s.hasErr then s
    else if s.pending != NO_OP then Apply(m, s, s.pending, s.accum, s.cur)
    else if s.lastOp != NO_OP then Apply(m, s, s.lastOp, s.cur, s.lastArg)
    else s
  }

  /** A digit that would not fit is refused and the value stays put. */
  function Digit(m: Arithmetic, s: State, d: nat): State {
    if d > 9 then s
    else if !s.entering then s.(hasErr := false, cur := d, entering := true)
    else
      match Binary(m, '*', s.cur, 10)
      case None => s.(hasErr := false)
      case Some(grown) =>
        match Binary(m, if s.cur >= 0 then '+' else '-', grown, d)
        case None => s.(hasErr := false)
        case Some(next) => s.(hasErr := false, cur := next)
  }

  function Backspace(s: State): State {
    if !s.entering then s
    else
      var q := Wrap64(Quotient(s.cur, 10));
      s.(cur := q, entering := q != 0)
  }

  function SetOp(m: Arithmetic, s: State, op: char): State {
    if s.hasErr || !IsOp(op) then s
    else
      var t := if s.entering then Evaluate(m, s) else s;
      if t.hasErr then t else t.(accum := t.cur, pending := op, entering := false)
  }

  datatype Key = KeyDigit(d: nat) | KeyBackspace | KeyOp(op: char) | KeyEquals | KeyClear

  function Press(m: Arithmetic, s: State, key: Key): State {
    match key
    case KeyDigit(d) => Digit(m, s, d)
    case KeyBackspace => Backspace(s)
    case KeyOp(op) => SetOp(m, s, op)
    case KeyEquals => Evaluate(m, s)
    case KeyClear => START
  }

  function Run(m: Arithmetic, keys: seq<Key>): State {
    if keys == [] then START else Press(m, Run(m, keys[..|keys| - 1]), keys[|keys| - 1])
  }

  // ---- the machine engine is exact on every run ----

  /** The two arithmetics agree on everything but -1 times the smallest value. */
  lemma BinaryExactly(op: char, a: int64, b: int64)
    ensures Binary(Machine, op, a, b) == Binary(Exact, op, a, b) <==> !(op == '*' && a == -1 && b == MIN)
  {
    match op {
      case '+' => AddExact(a, b);
      case '-' => SubExact(a, b);
      case '*' => MulExactly(a, b);
      case '/' =>
        if b != 0 {
          if a == MIN && b == -1 {
            assert Quotient(a, b) == -MIN;
          } else {
            QuotientSmaller(a, b);
          }
        }
      case _ =>
    }
  }

  /** What every reachable state keeps: a pending right operand is non-negative or is still the
      left one, and the smallest value is never remembered as a multiplier. */
  predicate Reachable(s: State) {
    && (s.pending != NO_OP ==> IsOp(s.pending) && (s.cur == s.accum || s.cur >= 0))
    && (s.entering ==> s.cur >= 0)
    && (s.lastOp != NO_OP ==> IsOp(s.lastOp))
    && (s.lastOp == '*' ==> s.lastArg != MIN)
  }

  lemma SquareOfMin()
    ensures Checked(MIN * MIN) == None
  {
  }

  lemma EvaluateExact(s: State)
    requires Reachable(s)
    ensures Evaluate(Machine, s) == Evaluate(Exact, s) && Reachable(Evaluate(Exact, s))
    ensures !Evaluate(Exact, s).hasErr && !s.hasErr ==> Evaluate(Exact, s).pending == NO_OP
  {
    hide Quotient, Add64, Sub64, Mul64, Wrap64;
    if s.pending != NO_OP {
      BinaryExactly(s.pending, s.accum, s.cur);
      SquareOfMin();
    } else if s.lastOp != NO_OP {
      BinaryExactly(s.lastOp, s.cur, s.lastArg);
    }
  }

  lemma DigitExact(s: State, d: nat)
    requires Reachable(s)
    ensures Digit(Machine, s, d) == Digit(Exact, s, d) && Reachable(Digit(Exact, s, d))
  {
    hide Quotient, Add64, Sub64, Mul64, Wrap64;
    if d <= 9 && s.entering {
      BinaryExactly('*', s.cur, 10);
      var grown := Binary(Exact, '*', s.cur, 10);
      if grown != None {
        BinaryExactly('+', grown.value, d);
      }
    }
  }

  lemma BackspaceKeeps(s: State)
    requires Reachable(s)
    ensures Reachable(Backspace(s))
  {
  }

  lemma PressExact(s: State, key: Key)
    requires Reachable(s)
    ensures Press(Machine, s, key) == Press(Exact, s, key) && Reachable(Press(Exact, s, key))
  {
    hide Quotient, Binary, Wrap64, Apply;
    match key {
      case KeyDigit(d) => DigitExact(s, d);
      case KeyBackspace => BackspaceKeeps(s);
      case KeyOp(_) => EvaluateExact(s);
      case KeyEquals => EvaluateExact(s);
      case KeyClear =>
    }
  }

  /** Every key sequence leaves the 64-bit engine in the state of the engine over unbounded
      integers: it never wraps silently, and it errors only where the exact one does. */
  lemma {:induction false} RunExact(keys: seq<Key>)
    ensures Run(Machine, keys) == Run(Exact, keys) && Reachable(Run(Machine, keys))
  {
    hide Press, Reachable;
    if keys == [] {
      StartReachable();
    } else {
      RunExact(keys[..|keys| - 1]);
      PressExact(Run(Exact, keys[..|keys| - 1]), keys[|keys| - 1]);
    }
  }

  lemma StartReachable()
    ensures Reachable(START)
  {
  }

  /** The invariant is needed: from a state no run reaches, `=` accepts a wrapped product. */
  lemma UnreachableStateWraps()
    ensures var s := State(-1, MIN, '*', NO_OP, 0, false, false);
            !Reachable(s) && Evaluate(Machine, s).cur == MIN && Evaluate(Exact, s) == ERROR
  {
    assert Wrap64(-1 * MIN) == MIN;
    assert Quotient(MIN, -1) == -MIN && Wrap64(-MIN) == MIN;
  }

  // ---- the display ----

  function DigitChar(d: nat): (c: char)
    requires d < 10
    ensures '0' <= c <= '9' && c as int - '0' as int == d
  {
    '0' + d as char
  }

  function Decimal(u: nat): (s: string)
    ensures |s| > 0
  {
    if u < 10 then [DigitChar(u)] else Decimal(u / 10) + [DigitChar(u % 10)]
  }

  function Format(v: int): string {
    if v < 0 then "-" + Decimal(-v) else Decimal(v)
  }

  function ParseDecimal(s: string): int {
    if s == "" then 0 else ParseDecimal(s[..|s| - 1]) * 10 + (s[|s| - 1] as int - '0' as int)
  }

  function Parse(s: string): int {
    if s != "" && s[0] == '-' then -ParseDecimal(s[1..]) else ParseDecimal(s)
  }

  lemma {:induction false} DecimalParses(u: nat)
    ensures ParseDecimal(Decimal(u)) == u
    ensures forall i :: 0 <= i < |Decimal(u)| ==> '0' <= Decimal(u)[i] <= '9'
    ensures u > 0 ==> Decimal(u)[0] != '0'
  {
    if u >= 10 {
      DecimalParses(u / 10);
      var s := Decimal(u);
      assert s[..|s| - 1] == Decimal(u / 10);
    } else {
      assert Decimal(u)[..0] == "";
    }
  }

  /** What is shown reads back as the value, has no leading zero and is never "-0". */
  lemma FormatParses(v: int)
    ensures Parse(Format(v)) == v
    ensures v != 0 ==> Format(v)[if v < 0 then 1 else 0] != '0'
  {
    DecimalParses(if v < 0 then -v else v);
    if v < 0 { assert Format(v)[1..] == Decimal(-v); }
  }

  function Power10(k: nat): nat {
    if k == 0 then 1 else 10 * Power10(k - 1)
  }

  lemma {:induction false} DecimalLength(u: nat, k: nat)
    requires k > 0 && u < Power10(k)
    ensures |Decimal(u)| <= k
  {
    if u >= 10 {
      assert k > 1 by { assert Power10(1) == 10 * Power10(0); }
      DecimalLength(u / 10, k - 1);
    }
  }

  lemma Nineteen()
    ensures Power10(19) == 10_000_000_000_000_000_000
  {
    assert Power10(4) == 10_000;
    assert Power10(8) == 100_000_000;
    assert Power10(12) == 1_000_000_000_000;
    assert Power10(16) == 10_000_000_000_000_000;
  }

  function Leading(u: nat): string {
    if u > 0 then Decimal(u) else ""
  }

  lemma LastDigit(u: nat)
    requires u > 0
    ensures Decimal(u) == Leading(u / 10) + [DigitChar(u % 10)]
  {
  }

  /** `tail` is what follows the digits of `u` in those of `value`. */
  ghost predicate Ends(value: nat, u: nat, tail: string)
    requires value > 0
  {
    Decimal(value) == Leading(u) + tail
  }

  lemma EndsWith(value: nat)
    requires value > 0
    ensures Ends(value, value, "")
    ensures forall tail :: Ends(value, 0, tail) ==> Decimal(value) == tail
  {
    hide Decimal;
    forall tail | Ends(value, 0, tail)
      ensures Decimal(value) == tail
    {
      assert "" + tail == tail;
    }
  }

  lemma EndsMore(value: nat, u: nat, tail: string)
    requires value > 0 && u > 0 && Ends(value, u, tail)
    ensures |tail| < |Decimal(value)| && Ends(value, u / 10, [DigitChar(u % 10)] + tail)
  {
    hide Decimal, DigitChar;
    LastDigit(u);
    assert Leading(u / 10) + [DigitChar(u % 10)] + tail == Leading(u / 10) + ([DigitChar(u % 10)] + tail);
  }

  /** The digit loop of formatI64: fills the buffer from the right, leaving room for a sign. */
  method FillDigits(buf: array<char>, value: nat) returns (i: nat)
    requires buf.Length == 20 && 0 < value <= MAX + 1
    modifies buf
    ensures 1 <= i <= 20 && buf[i..] == Decimal(value)
  {
    Nineteen();
    DecimalLength(value, 19);
    EndsWith(value);
    hide Power10, Decimal, DigitChar, Ends;
    var u := value;
    i := 20;
    assert buf[20..] == "";
    while u > 0
      invariant i <= 20 && Ends(value, u, buf[i..])
      invariant |buf[i..]| <= 19
    {
      ghost var tail := buf[i..];
      EndsMore(value, u, tail);
      i := i - 1;
      buf[i] := DigitChar(u % 10);
      assert buf[i..] == [DigitChar(u % 10)] + tail;
      u := u / 10;
    }
  }

  /** formatI64: 20 bytes are enough for every value. */
  method FormatI64(v: int64) returns (s: string)
    ensures s == Format(v)
  {
    if v == 0 { return "0"; }
    hide Decimal;
    var buf := new char[20];
    // uint64(^v) + 1 is -v, for the smallest value too
    var u: nat := if v < 0 then (-1 - v as int) + 1 else v;
    var i := FillDigits(buf, u);
    if v < 0 {
      i := i - 1;
      buf[i] := '-';
      assert buf[i..] == "-" + buf[i + 1..];
    }
    s := buf[i..];
  }

  // ---- the engine object ----

  class Engine {
    var accum: int64
    var cur: int64
    var pending: char
    var lastOp: char
    var lastArg: int64
    var entering: bool
    var hasErr: bool

    ghost function Now(): State
      reads this
    {
      State(accum, cur, pending, lastOp, lastArg, entering, hasErr)
    }

    constructor ()
      ensures Now() == START
    {
      accum, cur, pending, lastOp, lastArg, entering, hasErr := 0, 0, NO_OP, NO_OP, 0, false, false;
    }

    method Fail()
      modifies this
      ensures Now() == ERROR
    {
      hasErr := true;
      accum := 0;
      cur := 0;
      pending := NO_OP;
      lastOp := NO_OP;
      lastArg := 0;
      entering := false;
    }

    method InputDigit(d: nat)
      modifies this
      ensures Now() == Digit(Machine, old(Now()), d)
    {
      if d > 9 { return; }
      hasErr := false;
      if !entering {
        cur := d;
        entering := true;
        return;
      }
      var grown := Mul64(cur, 10);
      if grown == None { return; }
      var next := if cur >= 0 then Add64(grown.value, d) else Sub64(grown.value, d);
      if next == None { return; }
      cur := next.value;
    }

    method DropDigit()
      modifies this
      ensures Now() == Backspace(old(Now()))
    {
      if !entering { return; }
      cur := Wrap64(Quotient(cur, 10));
      if cur == 0 { entering := false; }
    }

    method EvalBinary(op: char, a: int64, b: int64)
      modifies this
      ensures Now() == Apply(Machine, old(Now()), op, a, b)
    {
      var res := Binary(Machine, op, a, b);
      if res == None {
        Fail();
        return;
      }
      cur := res.value;
      accum := res.value;
      if pending != NO_OP {
        lastOp := op;
        lastArg := b;
      }
      pending := NO_OP;
      entering := false;
    }

    method Equals()
      modifies this
      ensures Now() == Evaluate(Machine, old(Now()))
    {
      if hasErr { return; }
      if pending != NO_OP {
        EvalBinary(pending, accum, cur);
        return;
      }
      if lastOp != NO_OP {
        EvalBinary(lastOp, cur, lastArg);
      }
    }

    method Operator(op: char)
      modifies this
      ensures Now() == SetOp(Machine, old(Now()), op)
    {
      if hasErr || !IsOp(op) { return; }
      if entering {
        Equals();
        if hasErr { return; }
      }
      accum := cur;
      pending := op;
      entering := false;
    }

    method Clear()
      modifies this
      ensures Now() == START
    {
      accum, cur, pending, lastOp, lastArg, entering, hasErr := 0, 0, NO_OP, NO_OP, 0, false, false;
    }

    method Display() returns (s: string)
      ensures s == if hasErr then "ERROR" else Format(cur)
    {
      if hasErr { return "ERROR"; }
      s := FormatI64(cur);
    }
  }

  /** Any key sequence pressed on a new engine: the state is the exact engine's. */
  method PressAll(keys: seq<Key>) returns (e: Engine)
    ensures fresh(e) && e.Now() == Run(Exact, keys)
  {
    e := new Engine();
    for i := 0 to |keys|
      invariant fresh(e) && e.Now() == Run(Machine, keys[..i])
    {
      assert keys[..i + 1][..i] == keys[..i];
      match keys[i] {
        case KeyDigit(d) => e.InputDigit(d);
        case KeyBackspace => e.DropDigit();
        case KeyOp(op) => e.Operator(op);
        case KeyEquals => e.Equals();
        case KeyClear => e.Clear();
      }
    }
    assert keys[..|keys|] == keys;
    RunExact(keys);
  }
}
