/** Shared vocabulary of the preprocessor: bytes, ASCII constants and the
    error/warning counter `Result` (src/middleware/util.cpp, and the same
    operators again in src/application/job.cpp). */
module Util {

  /** One byte of a file, as the C++ code reads it through `char`. */
  type Byte = b: int | 0 <= b < 256

  const TAB: Byte := 0x09
  const LF: Byte := 0x0A
  const CR: Byte := 0x0D
  const SP: Byte := 0x20

  datatype Option<+T> = None | Some(value: T)

  /** C++ `int`. */
  type Int32 = x: int | -0x8000_0000 <= x < 0x8000_0000

  predicate IsDigit(c: char)
  {
    '0' <= c <= '9'
  }

  predicate AllDigits(s: string)
  {
    forall k :: 0 <= k < |s| ==> IsDigit(s[k])
  }

  /** Value of a string of decimal digits. */
  function DigitsValue(s: string): nat
    requires AllDigits(s)
  {
    if s == [] then 0
    else
      assert IsDigit(s[|s| - 1]);
      10 * DigitsValue(s[..|s| - 1]) + (s[|s| - 1] as int - '0' as int)
  }

  /** The decimal digit for `d`. */
  function DigitChar(d: nat): (c: char)
    requires d < 10
    ensures IsDigit(c) && c as int - '0' as int == d
  {
    (d + '0' as int) as char
  }

  /** `std::to_string` of a number that is not negative: decimal, no leading zero. */
  function NatToString(n: nat): (s: string)
    ensures |s| >= 1
    ensures AllDigits(s)
    decreases n
  {
    if n < 10 then [DigitChar(n)] else NatToString(n / 10) + [DigitChar(n % 10)]
  }

  /** `std::to_string(int)`: a minus sign before negative numbers. */
  function IntToString(n: int): string
  {
    if n < 0 then "-" + NatToString(-n) else NatToString(n)
  }

  /** `std::stoi`, restricted to an optional sign followed by decimal digits
      and nothing else; a value outside `int` is out of range. */
  function Stoi(s: string): (r: Option<int>)
    ensures r.Some? ==> -0x8000_0000 <= r.value < 0x8000_0000
  {
    var v :=
      if |s| >= 2 && (s[0] == '-' || s[0] == '+') && AllDigits(s[1..]) then
        Some(if s[0] == '-' then 0 - DigitsValue(s[1..]) else DigitsValue(s[1..]))
      else if |s| >= 1 && AllDigits(s) then Some(DigitsValue(s) as int)
      else None;
    if v.Some? && -0x8000_0000 <= v.value < 0x8000_0000 then v else None
  }

  lemma {:induction false} NatToStringValue(n: nat)
    ensures DigitsValue(NatToString(n)) == n
    decreases n
  {
    if n >= 10 {
      NatToStringValue(n / 10);
      var s := NatToString(n);
      assert s[..|s| - 1] == NatToString(n / 10);
      assert s[|s| - 1] == DigitChar(n % 10);
    }
  }

  /** `std::stoi` reads back what `std::to_string` writes; the text is
      digits after an optional minus sign. */
  lemma StoiOfIntToString(n: Int32)
    ensures Stoi(IntToString(n)) == Some(n)
    ensures |IntToString(n)| >= 1
    ensures forall k :: 0 <= k < |IntToString(n)| ==> IsDigit(IntToString(n)[k]) || IntToString(n)[k] == '-'
  {
    var m: int := n;
    if m < 0 {
      NatToStringValue(-m);
      StoiNegative(NatToString(-m), -m);
    } else {
      NatToStringValue(m);
      StoiDigits(NatToString(m), m);
    }
  }

  lemma StoiNegative(t: string, m: nat)
    requires m <= 0x8000_0000 && |t| >= 1 && AllDigits(t) && DigitsValue(t) == m
    ensures Stoi("-" + t) == Some(0 - m)
  {
    var s := "-" + t;
    assert s[1..] == t;
  }

  lemma StoiDigits(t: string, m: nat)
    requires m < 0x8000_0000 && |t| >= 1 && AllDigits(t) && DigitsValue(t) == m
    ensures Stoi(t) == Some(m)
  {
    assert IsDigit(t[0]);
  }

  lemma AppendAssoc<T>(a: seq<T>, b: seq<T>, c: seq<T>)
    ensures (a + b) + c == a + (b + c)
  {
  }

  lemma ConcatMiddle<T>(a: seq<T>, b: seq<T>, c: seq<T>)
    ensures (a + (b + c))[|a|..|a| + |b|] == b
  {
    assert (a + (b + c))[|a|..] == b + c;
  }

  lemma SliceSplit<T>(s: seq<T>, i: nat, j: nat)
    requires i <= j <= |s|
    ensures s[i..j] + s[j..] == s[i..]
  {
  }

  lemma Concat4<T>(a: seq<T>, b: seq<T>, c: seq<T>, d: seq<T>)
    ensures a + (b + (c + d)) == ((a + b) + c) + d
  {
  }

  /** Error and warning counters (`struct Result`, util.h:40-54). */
  datatype Result = Result(err: int, warn: int)

  /** `Result()`: no errors, no warnings. */
  const Zero: Result := Result(0, 0)

  /** `Result(int ne)`: `ne` errors, no warnings. */
  function Errors(ne: int): (r: Result)
    ensures r.err == ne && r.warn == 0
  {
    Result(ne, 0)
  }

  /** `operator+` and `operator+=`: componentwise addition. */
  function Add(a: Result, b: Result): Result
  {
    Result(a.err + b.err, a.warn + b.warn)
  }

  /** `operator>(Result, int)`. */
  predicate Exceeds(r: Result, n: int)
  {
    r.err > n || r.warn > n || r.err + r.warn > n
  }

  /** `operator==(Result, int)`. */
  predicate EqualsBoth(r: Result, n: int)
  {
    r.err == n && r.warn == n
  }

  /** `r` with one more error (`++r.err`). */
  function OneMoreError(r: Result): (r': Result)
    ensures r' == Add(r, Errors(1))
  {
    Result(r.err + 1, r.warn)
  }

  /** `r` with one more warning (`++r.warn`). */
  function OneMoreWarning(r: Result): (r': Result)
    ensures r' == Add(r, Result(0, 1))
  {
    Result(r.err, r.warn + 1)
  }

  lemma AddIdentity(a: Result)
    ensures Add(Zero, a) == a && Add(a, Zero) == a
  {
  }

  lemma AddCommutes(a: Result, b: Result)
    ensures Add(a, b) == Add(b, a)
  {
  }

  lemma AddAssociates(a: Result, b: Result, c: Result)
    ensures Add(Add(a, b), c) == Add(a, Add(b, c))
  {
  }

  /** With counts that are not negative, `r > n` is decided by the total
      number of diagnostics alone. */
  lemma ExceedsBySum(r: Result, n: int)
    requires r.err >= 0 && r.warn >= 0
    ensures Exceeds(r, n) <==> r.err + r.warn > n
  {
  }

  /** `r == 0` holds exactly for the empty result. */
  lemma EqualsZeroIsZero(r: Result)
    ensures EqualsBoth(r, 0) <==> r == Zero
  {
  }

  /** Sum of a sequence of results, left to right, starting at `Result()`:
      what a loop of `pr += lastR` leaves in `pr`. */
  function Sum(rs: seq<Result>): Result
  {
    if rs == [] then Zero else Add(Sum(rs[..|rs| - 1]), rs[|rs| - 1])
  }

  lemma {:induction false} SumAppend(a: seq<Result>, b: seq<Result>)
    ensures Sum(a + b) == Add(Sum(a), Sum(b))
    decreases |b|
  {
    if b == [] {
      assert a + b == a;
    } else {
      var b' := b[..|b| - 1];
      assert (a + b)[..|a + b| - 1] == a + b';
      SumAppend(a, b');
    }
  }

  /** The sum counts exactly the errors and the warnings of its parts. */
  lemma {:induction false} SumComponents(rs: seq<Result>)
    ensures Sum(rs).err == SumErr(rs) && Sum(rs).warn == SumWarn(rs)
  {
    if rs != [] {
      SumComponents(rs[..|rs| - 1]);
      SumErrLast(rs);
      SumWarnLast(rs);
    }
  }

  function SumErr(rs: seq<Result>): int
  {
    if rs == [] then 0 else rs[0].err + SumErr(rs[1..])
  }

  function SumWarn(rs: seq<Result>): int
  {
    if rs == [] then 0 else rs[0].warn + SumWarn(rs[1..])
  }

  lemma {:induction false} SumErrLast(rs: seq<Result>)
    requires rs != []
    ensures SumErr(rs) == SumErr(rs[..|rs| - 1]) + rs[|rs| - 1].err
  {
    if |rs| > 1 {
      assert rs[1..][..|rs[1..]| - 1] == rs[..|rs| - 1][1..];
      SumErrLast(rs[1..]);
    }
  }

  lemma {:induction false} SumWarnLast(rs: seq<Result>)
    requires rs != []
    ensures SumWarn(rs) == SumWarn(rs[..|rs| - 1]) + rs[|rs| - 1].warn
  {
    if |rs| > 1 {
      assert rs[1..][..|rs[1..]| - 1] == rs[..|rs| - 1][1..];
      SumWarnLast(rs[1..]);
    }
  }
}
