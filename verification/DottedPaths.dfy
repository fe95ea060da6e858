/** Decimal numbers and dotted strings, as the trace paths print and parse them. */
module DottedPaths {
  import opened Ops

  // ----- splitting -----

  /** `s.split('.')`: always at least one part. */
  function Split(s: string): (parts: seq<string>)
    ensures |parts| >= 1
  {
    if s == [] then [""]
    else
      var n := |s| - 1;
      var parts := Split(s[..n]);
      if s[n] == '.' then parts + [""]
      else parts[..|parts| - 1] + [parts[|parts| - 1] + [s[n]]]
  }

  lemma {:induction false} SplitWhole(s: string)
    requires '.' !in s
    ensures Split(s) == [s]
  {
    if s == [] {
    } else {
      SplitWhole(s[..|s| - 1]);
      assert s[..|s| - 1] + [s[|s| - 1]] == s;
    }
  }

  lemma SplitPush(s: string, c: char)
    ensures Split(s + [c]) == if c == '.' then Split(s) + [""]
                              else Split(s)[..|Split(s)| - 1] + [Split(s)[|Split(s)| - 1] + [c]]
  {
    assert (s + [c])[..|s|] == s;
  }

  lemma SplitEmpty()
    ensures Split("") == [""]
  {}

  lemma {:induction false} SplitDot(a: string, b: string)
    ensures Split(a + "." + b) == Split(a) + Split(b)
  {
    hide Split;
    SplitEmpty();
    if b == [] {
      SplitPush(a, '.');
      assert a + "." + b == a + ['.'];
    } else {
      var c, d, n := a + "." + b, b[..|b| - 1], |b| - 1;
      SplitDot(a, d);
      assert c == a + "." + d + [b[n]] && b == d + [b[n]];
      SplitPush(a + "." + d, b[n]);
      SplitPush(d, b[n]);
      var p, q := Split(a), Split(d);
      assert (p + q)[..|p + q| - 1] == p + q[..|q| - 1];
    }
  }

  /** A character that is not the separator survives in some part, and in the
      first part when it comes before any separator. */
  lemma {:induction false} SplitFirst(a: string, b: string)
    requires '.' !in a
    ensures |Split(a + b)[0]| >= |a| && Split(a + b)[0][..|a|] == a
  {
    if b == [] {
      assert a + b == a;
      SplitWhole(a);
    } else {
      assert (a + b)[..|a + b| - 1] == a + b[..|b| - 1];
      SplitFirst(a, b[..|b| - 1]);
    }
  }

  // ----- decimal numbers -----

  function Digit(d: nat): char
    requires d < 10
  {
    '0' + d as char
  }

  predicate IsDigit(c: char) { '0' <= c <= '9' }

  /** `format!("{}", n)`. */
  function Show(n: nat): (s: string)
    ensures s != [] && forall i | 0 <= i < |s| :: IsDigit(s[i])
  {
    if n < 10 then [Digit(n)] else Show(n / 10) + [Digit(n % 10)]
  }

  /** The value of a digit string, or none if it has any other character. */
  function DigitsValue(s: string): Option<nat> {
    if s == [] then Some(0)
    else
      var c := s[|s| - 1];
      match DigitsValue(s[..|s| - 1])
      case None => None
      case Some(v) => if IsDigit(c) then Some(v * 10 + (c as int - '0' as int)) else None
  }

  /** `s.parse()` for an unsigned integer type with maximum `max`: an optional
      plus sign, at least one digit, no overflow. */
  function ParseUnsigned(s: string, max: nat): Option<nat> {
    var digits := if s != [] && s[0] == '+' then s[1..] else s;
    if digits == [] then None
    else
      match DigitsValue(digits)
      case None => None
      case Some(v) => if v <= max then Some(v) else None
  }

  lemma {:induction false} DigitsOfShow(n: nat)
    ensures DigitsValue(Show(n)) == Some(n)
  {
    if n < 10 {
      assert Show(n)[..0] == [];
    } else {
      DigitsOfShow(n / 10);
      assert Show(n)[..|Show(n)| - 1] == Show(n / 10);
    }
  }

  /** Printing and parsing are inverse on everything the type can hold. */
  lemma ParseShow(n: nat, max: nat)
    ensures ParseUnsigned(Show(n), max) == if n <= max then Some(n) else None
  {
    DigitsOfShow(n);
    assert IsDigit(Show(n)[0]);
  }

  lemma ShowInjective(m: nat, n: nat)
    requires Show(m) == Show(n)
    ensures m == n
  {
    DigitsOfShow(m);
    DigitsOfShow(n);
  }

  lemma ShowPlain(n: nat)
    ensures '.' !in Show(n) && '?' !in Show(n)
  {
    assert forall i | 0 <= i < |Show(n)| :: IsDigit(Show(n)[i]);
  }

  lemma {:induction false} DigitsOnly(s: string, i: nat)
    requires i < |s| && !IsDigit(s[i])
    ensures DigitsValue(s) == None
  {
    if i < |s| - 1 {
      DigitsOnly(s[..|s| - 1], i);
    }
  }

  /** A question mark makes a number unparseable. */
  lemma QuestionUnparseable(s: string, i: nat, max: nat)
    requires i < |s| && s[i] == '?'
    ensures ParseUnsigned(s, max) == None
  {
    if s[0] == '+' {
      DigitsOnly(s[1..], i - 1);
    } else {
      DigitsOnly(s, i);
    }
  }

  /** Printing is in base ten, without leading zeros. */
  lemma ShowIsDecimal(n: nat, d: nat)
    requires d < 10
    ensures Show(d) == [('0' as int + d) as char]
    ensures n > 0 ==> Show(10 * n + d) == Show(n) + [('0' as int + d) as char]
  {
    assert (10 * n + d) / 10 == n && (10 * n + d) % 10 == d;
  }

  /** Parsing is positional in base ten, takes the ten digits and nothing else, and
      minds leading zeros as little as a leading plus sign. */
  lemma ParseIsDecimal(s: string, c: char, max: nat)
    ensures DigitsValue([]) == Some(0)
    ensures DigitsValue(s + [c]) ==
            if DigitsValue(s).Some? && '0' <= c <= '9' then Some(10 * DigitsValue(s).value + (c as int - '0' as int)) else None
    ensures ParseUnsigned("", max) == None && ParseUnsigned("+", max) == None
    ensures s != [] && s[0] != '+' ==>
              ParseUnsigned("+" + s, max) == ParseUnsigned(s, max)
              && ParseUnsigned(s, max) ==
                 if DigitsValue(s).Some? && DigitsValue(s).value <= max then DigitsValue(s) else None
  {
    assert (s + [c])[..|s|] == s;
    assert ("+" + s)[1..] == s;
  }

  // ----- paths -----

  function ShowAll(path: seq<nat>): (r: seq<string>)
    ensures |r| == |path|
  {
    seq(|path|, i requires 0 <= i < |path| => Show(path[i]))
  }

  /** The numbers of a path with dots between them. */
  function Join(path: seq<nat>): string
    requires path != []
  {
    if |path| == 1 then Show(path[0])
    else Join(path[..|path| - 1]) + "." + Show(path[|path| - 1])
  }

  lemma {:induction false} SplitJoin(path: seq<nat>)
    requires path != []
    ensures Split(Join(path)) == ShowAll(path)
  {
    hide Split, Show;
    var n := |path| - 1;
    ShowPlain(path[n]);
    SplitWhole(Show(path[n]));
    if n > 0 {
      SplitJoin(path[..n]);
      SplitDot(Join(path[..n]), Show(path[n]));
      assert ShowAll(path) == ShowAll(path[..n]) + [Show(path[n])];
    } else {
      assert ShowAll(path) == [Show(path[0])];
    }
  }

  lemma {:induction false} JoinPlain(path: seq<nat>)
    requires path != []
    ensures '?' !in Join(path)
  {
    var n := |path| - 1;
    ShowPlain(path[n]);
    if n == 0 {
    } else {
      JoinPlain(path[..n]);
    }
  }
}
