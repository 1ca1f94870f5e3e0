/** Interface names compared with a wildcard that stands for a number. */
module IfName {
  import opened Text

  predicate IsDigit(c: char) {
    '0' <= c <= '9'
  }

  lemma DigitsAre(c: char)
    ensures IsDigit(c) <==> c in "0123456789"
  {
  }

  /** The character at a position of a string, or its terminating NUL. */
  function CharAt(s: CString, i: nat): char {
    if i < |s| then s[i] else '\0'
  }

  /** strcmp(a + i, b + j) */
  function Strcmp(a: CString, i: nat, b: CString, j: nat): int
    requires i <= |a| && j <= |b|
    decreases |a| - i
  {
    if CharAt(a, i) != CharAt(b, j) then CharAt(a, i) as int - CharAt(b, j) as int
    else if i == |a| then 0
    else Strcmp(a, i + 1, b, j + 1)
  }

  /** strncmp(a, b, n), from character i on */
  function Strncmp(a: CString, b: CString, i: nat, n: nat): int
    requires i <= |a| && i <= |b|
    decreases |a| - i
  {
    if i >= n then 0
    else if CharAt(a, i) != CharAt(b, i) then CharAt(a, i) as int - CharAt(b, i) as int
    else if i == |a| then 0
    else Strncmp(a, b, i + 1, n)
  }

  lemma {:induction false} StrcmpZero(a: CString, i: nat, b: CString, j: nat)
    requires i <= |a| && j <= |b|
    ensures Strcmp(a, i, b, j) == 0 <==> a[i..] == b[j..]
    decreases |a| - i
  {
    if i < |a| && j < |b| && a[i] == b[j] {
      StrcmpZero(a, i + 1, b, j + 1);
      assert a[i..] == [a[i]] + a[i + 1..] && b[j..] == [b[j]] + b[j + 1..];
    } else if i < |a| && j < |b| {
      assert a[i..][0] != b[j..][0];
    }
  }

  lemma {:induction false} StrncmpZero(a: CString, b: CString, i: nat, n: nat)
    requires i <= n <= |a| && i <= |b|
    ensures Strncmp(a, b, i, n) == 0 <==> n <= |b| && a[i..n] == b[i..n]
    decreases n - i
  {
    if i < n && i < |b| {
      if a[i] == b[i] {
        StrncmpZero(a, b, i + 1, n);
        if n <= |b| {
          assert a[i..n] == [a[i]] + a[i + 1..n] && b[i..n] == [b[i]] + b[i + 1..n];
        }
      } else if n <= |b| {
        assert a[i..n][0] != b[i..n][0];
      }
    }
  }

  /** strchr(s, '*'), or the length when there is none */
  function Star(s: CString, i: nat): (r: nat)
    requires i <= |s|
    ensures i <= r <= |s| && (r < |s| ==> s[r] == '*') && forall k :: i <= k < r ==> s[k] != '*'
    decreases |s| - i
  {
    if i == |s| || s[i] == '*' then i else Star(s, i + 1)
  }

  /** The first position from v on that holds no digit. */
  function SkipDigits(s: CString, v: nat): (r: nat)
    requires v <= |s|
    ensures v <= r <= |s| && !IsDigit(CharAt(s, r)) && forall k :: v <= k < r ==> IsDigit(s[k])
    decreases |s| - v
  {
    if IsDigit(CharAt(s, v)) then SkipDigits(s, v + 1) else v
  }

  /** What if_match_ifname returns. */
  function MatchIfname(pattern: CString, value: CString): int {
    var p := Star(pattern, 0);
    if p == |pattern| then Strcmp(pattern, 0, value, 0) else
    var prefix := Strncmp(pattern, value, 0, p);
    if prefix != 0 then prefix else
    StrncmpZero(pattern, value, 0, p);
    if !IsDigit(CharAt(value, p)) then -1
    else Strcmp(pattern, p + 1, value, SkipDigits(value, p + 1))
  }

  /** if_match_ifname */
  method IfMatchIfname(pattern: CString, value: CString) returns (ret: int)
    ensures ret == MatchIfname(pattern, value)
  {
    var p := Star(pattern, 0);
    if p == |pattern| {
      return Strcmp(pattern, 0, value, 0);
    }
    var n := p;
    ret := Strncmp(pattern, value, 0, n);
    if ret != 0 {
      return ret;
    }
    StrncmpZero(pattern, value, 0, n);
    var v := n;
    if !IsDigit(CharAt(value, v)) {
      return -1;
    }
    v := v + 1;
    while IsDigit(CharAt(value, v))
      invariant n < v <= |value|
      invariant SkipDigits(value, v) == SkipDigits(value, n + 1)
      decreases |value| - v
    {
      v := v + 1;
    }
    p := p + 1;
    return Strcmp(pattern, p, value, v);
  }

  predicate IsNumber(s: string) {
    s != [] && forall i :: 0 <= i < |s| ==> IsDigit(s[i])
  }

  /** The value is the pattern with a number in place of its first star. */
  ghost predicate Instance(pattern: CString, value: CString) {
    var p := Star(pattern, 0);
    p < |pattern| && exists digits: string :: IsNumber(digits) && value == pattern[..p] + digits + pattern[p + 1..]
  }

  /**
    A value matches a pattern with a star exactly when it is an instance of it and the pattern does
    not go on with a digit: the number is taken as long as it gets, so such a pattern matches nothing.
   */
  lemma {:induction false} MatchesInstances(pattern: CString, value: CString)
    requires Star(pattern, 0) < |pattern|
    ensures MatchIfname(pattern, value) == 0 <==>
      Instance(pattern, value) && CharAt(pattern, Star(pattern, 0) + 1) !in "0123456789"
  {
    var p := Star(pattern, 0);
    DigitsAre(CharAt(pattern, p + 1));
    if MatchIfname(pattern, value) == 0 {
      MatchIsInstance(pattern, value);
    }
    hide MatchIfname;
    if Instance(pattern, value) && !IsDigit(CharAt(pattern, p + 1)) {
      var digits: string :| IsNumber(digits) && value == pattern[..p] + digits + pattern[p + 1..];
      InstanceMatches(pattern, value, digits);
    }
  }

  lemma {:induction false} MatchIsInstance(pattern: CString, value: CString)
    requires Star(pattern, 0) < |pattern| && MatchIfname(pattern, value) == 0
    ensures Instance(pattern, value) && !IsDigit(CharAt(pattern, Star(pattern, 0) + 1))
  {
    MatchParts(pattern, value);
    hide Strcmp, Strncmp, Star, SkipDigits, MatchIfname, IsDigit;
    var p := Star(pattern, 0);
    var v := SkipDigits(value, p + 1);
    var digits, suffix := value[p..v], pattern[p + 1..];
    Rejoin(value, p, v);
    assert IsNumber(digits) by {
      forall i | 0 <= i < |digits| ensures IsDigit(digits[i]) {
        assert digits[i] == value[p + i];
      }
    }
    if p + 1 < |pattern| {
      assert suffix[0] == value[v];
    }
  }

  lemma Rejoin(s: string, p: nat, v: nat)
    requires p <= v <= |s|
    ensures s == s[..p] + s[p..v] + s[v..]
  {
    assert s[..v] == s[..p] + s[p..v];
    assert s == s[..v] + s[v..];
  }

  lemma {:induction false} MatchParts(pattern: CString, value: CString)
    requires Star(pattern, 0) < |pattern| && MatchIfname(pattern, value) == 0
    ensures var p := Star(pattern, 0);
      && p < |value| && IsDigit(value[p]) && value[..p] == pattern[..p]
      && value[SkipDigits(value, p + 1)..] == pattern[p + 1..]
  {
    var p := Star(pattern, 0);
    StrncmpZero(pattern, value, 0, p);
    StrcmpZero(pattern, p + 1, value, SkipDigits(value, p + 1));
    assert value[0..p] == value[..p] && pattern[0..p] == pattern[..p];
  }

  /** The number is all of the digits at its place. */
  lemma {:induction false} InstanceMatches(pattern: CString, value: CString, digits: string)
    requires var p := Star(pattern, 0);
      && p < |pattern| && !IsDigit(CharAt(pattern, p + 1))
      && IsNumber(digits) && value == pattern[..p] + digits + pattern[p + 1..]
    ensures MatchIfname(pattern, value) == 0
  {
    var p := Star(pattern, 0);
    var end := p + |digits|;
    StrncmpZero(pattern, value, 0, p);
    assert value[..p] == pattern[..p];
    assert forall k :: p <= k < end ==> value[k] == digits[k - p];
    var v := SkipDigits(value, p + 1);
    assert value[end..] == pattern[p + 1..];
    assert CharAt(value, end) == CharAt(pattern, p + 1);
    assert v == end;
    StrcmpZero(pattern, p + 1, value, v);
  }

  /** A pattern that goes on with a digit, and an instance of it that does not match. */
  lemma {:induction false} DigitAfterStar()
    ensures Instance("eth*0", "eth10") && MatchIfname("eth*0", "eth10") != 0
  {
    var pattern: CString, value: CString := "eth*0", "eth10";
    var p := Star(pattern, 0);
    assert pattern[3] == '*';
    assert p == 3;
    assert IsNumber("1") && value == pattern[..p] + "1" + pattern[p + 1..];
    assert IsDigit(CharAt(pattern, p + 1));
    MatchesInstances(pattern, value);
  }

  /** Without a star only the same name matches. */
  lemma {:induction false} MatchesName(pattern: CString, value: CString)
    requires Star(pattern, 0) == |pattern|
    ensures MatchIfname(pattern, value) == 0 <==> pattern == value
  {
    StrcmpZero(pattern, 0, value, 0);
    assert pattern[0..] == pattern && value[0..] == value;
  }
}
