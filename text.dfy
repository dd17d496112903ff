/** The optional value used throughout the model (Python's `None` or a value). */
module Wrappers {
  datatype Option<+T> = None | Some(value: T)
}

/**
 * Models of the Python string built-ins the form builder relies on:
 * `str.strip`, `str.split`, `str.index`, `str.rindex`, `str.replace(c, '', 1)`,
 * `str.isdigit` and `int(str)`. Character classes are restricted to ASCII.
 */
module Text {
  import opened Wrappers

  /** ASCII whitespace, as `str.strip()` and the regex class `\s` see it. */
  predicate IsSpace(c: char) {
    c == ' ' || c == '\t' || c == '\n' || c == '\r' || c == '\U{0B}' || c == '\U{0C}'
  }

  predicate AllSpace(s: string) {
    forall i :: 0 <= i < |s| ==> IsSpace(s[i])
  }

  predicate IsDigit(c: char) {
    '0' <= c <= '9'
  }

  predicate AllDigits(s: string) {
    forall i :: 0 <= i < |s| ==> IsDigit(s[i])
  }

  /** `str.isdigit()`: non-empty and made of digits only. */
  predicate IsDigits(s: string) {
    |s| > 0 && AllDigits(s)
  }

  predicate IsAsciiLetter(c: char) {
    'a' <= c <= 'z' || 'A' <= c <= 'Z'
  }

  /** `r` occurs somewhere in `s` as a contiguous slice. */
  ghost predicate IsSubstring(r: string, s: string) {
    exists i, j :: 0 <= i <= j <= |s| && s[i..j] == r
  }

  // ---------------------------------------------------------------- strip

  /** Drops leading whitespace: what remains is a suffix that starts with a non-space. */
  function TrimLeft(s: string): (r: string)
    ensures |r| <= |s| && r == s[|s| - |r|..]
    ensures AllSpace(s[..|s| - |r|])
    ensures r != [] ==> !IsSpace(r[0])
  {
    if s != [] && IsSpace(s[0]) then TrimLeft(s[1..]) else s
  }

  /** Drops trailing whitespace: what remains is a prefix that ends with a non-space. */
  function TrimRight(s: string): (r: string)
    ensures |r| <= |s| && r == s[..|r|]
    ensures AllSpace(s[|r|..])
    ensures r != [] ==> !IsSpace(r[|r| - 1])
  {
    if s != [] && IsSpace(s[|s| - 1]) then TrimRight(s[..|s| - 1]) else s
  }

  /** `str.strip()`: the result neither starts nor ends with whitespace. */
  function Trim(s: string): (r: string)
    ensures |r| <= |s|
    ensures r != [] ==> !IsSpace(r[0]) && !IsSpace(r[|r| - 1])
  {
    TrimRight(TrimLeft(s))
  }

  /** Trimming removes whitespace only: `s` is spaces, then `Trim(s)`, then spaces. */
  lemma TrimBounds(s: string) returns (lo: nat, hi: nat)
    ensures lo <= hi <= |s| && Trim(s) == s[lo..hi]
    ensures AllSpace(s[..lo]) && AllSpace(s[hi..])
  {
    var l := TrimLeft(s);
    lo := |s| - |l|;
    var r := TrimRight(l);
    hi := lo + |r|;
    assert l == s[lo..];
    assert s[lo..hi] == l[..|r|];
    assert s[hi..] == l[|r|..];
  }

  lemma TrimLeftPadded(a: string, y: string)
    requires AllSpace(a)
    requires y != [] ==> !IsSpace(y[0])
    ensures TrimLeft(a + y) == y
  {
    var s := a + y;
    assert forall j :: 0 <= j < |a| ==> s[j] == a[j];
    assert forall j :: 0 <= j < |y| ==> s[|a| + j] == y[j];
  }

  lemma TrimRightPadded(y: string, b: string)
    requires AllSpace(b)
    requires y != [] ==> !IsSpace(y[|y| - 1])
    ensures TrimRight(y + b) == y
  {
    var s := y + b;
    assert forall j :: 0 <= j < |y| ==> s[j] == y[j];
    assert forall j :: 0 <= j < |b| ==> s[|y| + j] == b[j];
  }

  /** Whitespace padding around an already stripped string is exactly what `Trim` removes. */
  lemma TrimOfPadded(a: string, x: string, b: string)
    requires AllSpace(a) && AllSpace(b)
    requires x != [] ==> !IsSpace(x[0]) && !IsSpace(x[|x| - 1])
    ensures Trim(a + x + b) == x
  {
    if x == [] {
      assert a + x + b == a + b;
      assert AllSpace(a + b);
      TrimLeftPadded(a + b, []);
      assert a + b + [] == a + b;
      assert TrimLeft(a + b) == [];
    } else {
      assert a + x + b == a + (x + b);
      TrimLeftPadded(a, x + b);
      TrimRightPadded(x, b);
    }
  }

  lemma AllSpaceConcat(a: string, b: string)
    requires AllSpace(a) && AllSpace(b)
    ensures AllSpace(a + b)
  {
    assert forall j :: |a| <= j < |a + b| ==> (a + b)[j] == b[j - |a|];
  }

  lemma Regroup(a: string, x: string, b: string, lo: nat, hi: nat)
    requires lo <= hi <= |x|
    ensures (a + x[..lo]) + x[lo..hi] + (x[hi..] + b) == a + x + b
  {
    var l, r := (a + x[..lo]) + x[lo..hi] + (x[hi..] + b), a + x + b;
    assert |l| == |r|;
    forall i | 0 <= i < |l|
      ensures l[i] == r[i]
    {
      if i < |a| + lo {
      } else if i < |a| + hi {
      } else {
      }
    }
  }

  /** `strip()` ignores any extra whitespace around its argument. */
  lemma TrimIgnoresPadding(a: string, x: string, b: string)
    requires AllSpace(a) && AllSpace(b)
    ensures Trim(a + x + b) == Trim(x)
  {
    var lo, hi := TrimBounds(x);
    var a', t, b' := a + x[..lo], x[lo..hi], x[hi..] + b;
    AllSpaceConcat(a, x[..lo]);
    AllSpaceConcat(x[hi..], b);
    Regroup(a, x, b, lo, hi);
    TrimOfPadded(a', t, b');
  }

  /** `strip()` leaves nothing exactly when the text is all whitespace. */
  lemma TrimEmptyIff(s: string)
    ensures Trim(s) == [] <==> AllSpace(s)
  {
    var lo, hi := TrimBounds(s);
    if Trim(s) == [] {
      assert s == s[..lo] + s[hi..];
      AllSpaceConcat(s[..lo], s[hi..]);
    }
    if AllSpace(s) {
      TrimOfPadded(s, [], []);
      assert s + [] + [] == s;
    }
  }

  /** A character absent from the text is absent from its trimmed form. */
  lemma TrimKeepsAbsent(s: string, c: char)
    ensures c !in s ==> c !in Trim(s)
  {
    var lo, hi := TrimBounds(s);
    assert forall k :: lo <= k < hi ==> s[lo..hi][k - lo] == s[k];
  }

  /** `strip()` is idempotent. */
  lemma TrimIdempotent(s: string)
    ensures Trim(Trim(s)) == Trim(s)
  {
    TrimOfPadded([], Trim(s), []);
    assert [] + Trim(s) + [] == Trim(s);
  }

  // ---------------------------------------------------------- index / rindex

  /** `s.index(c)`: the first position holding `c`. */
  function IndexOf(s: string, c: char): (i: nat)
    requires c in s
    ensures i < |s| && s[i] == c && c !in s[..i]
  {
    if s[0] == c then 0 else 1 + IndexOf(s[1..], c)
  }

  /** `s.rindex(c)`: the last position holding `c`. */
  function LastIndexOf(s: string, c: char): (i: nat)
    requires c in s
    ensures i < |s| && s[i] == c && c !in s[i + 1..]
  {
    if s[|s| - 1] == c then |s| - 1 else LastIndexOf(s[..|s| - 1], c)
  }

  /** Any position holding `c` with no `c` before it is the one `IndexOf` finds. */
  lemma IndexOfUnique(s: string, c: char, i: nat)
    requires i < |s| && s[i] == c && c !in s[..i]
    ensures c in s && IndexOf(s, c) == i
  {
    var k := IndexOf(s, c);
    assert forall j :: 0 <= j < i ==> s[..i][j] == s[j];
    assert forall j :: 0 <= j < k ==> s[..k][j] == s[j];
  }

  /** Any position holding `c` with no `c` after it is the one `LastIndexOf` finds. */
  lemma LastIndexOfUnique(s: string, c: char, i: nat)
    requires i < |s| && s[i] == c && c !in s[i + 1..]
    ensures c in s && LastIndexOf(s, c) == i
  {
    var k := LastIndexOf(s, c);
    assert forall j :: i < j < |s| ==> s[i + 1..][j - i - 1] == s[j];
    assert forall j :: k < j < |s| ==> s[k + 1..][j - k - 1] == s[j];
  }

  predicate OccursAt(s: string, pat: string, i: nat) {
    i + |pat| <= |s| && s[i..i + |pat|] == pat
  }

  /** The first occurrence of `pat` in `s` at or after `from`, if any. */
  function FindFrom(s: string, pat: string, from: nat): (r: Option<nat>)
    decreases |s| - from
    ensures r.Some? ==> from <= r.value && OccursAt(s, pat, r.value)
    ensures r.Some? ==> forall j :: from <= j < r.value ==> !OccursAt(s, pat, j)
    ensures r.None? ==> forall j :: from <= j ==> !OccursAt(s, pat, j)
  {
    if from + |pat| > |s| then None
    else if OccursAt(s, pat, from) then Some(from)
    else FindFrom(s, pat, from + 1)
  }

  // ------------------------------------------------------------------- split

  /** `s.split(c)`: the pieces between separators; there is always at least one. */
  function Split(s: string, c: char): (parts: seq<string>)
    decreases |s|
    ensures |parts| >= 1
    ensures c in s ==> |parts| >= 2
    ensures forall k :: 0 <= k < |parts| ==> c !in parts[k]
  {
    if c in s then
      var i := IndexOf(s, c);
      [s[..i]] + Split(s[i + 1..], c)
    else
      [s]
  }

  /** `c.join(parts)`, the inverse of `Split`. */
  function Join(parts: seq<string>, c: char): string
    requires |parts| >= 1
  {
    if |parts| == 1 then parts[0] else parts[0] + [c] + Join(parts[1..], c)
  }

  /** Joining the pieces back with the separator gives the original text. */
  lemma {:induction false} JoinSplit(s: string, c: char)
    decreases |s|
    ensures Join(Split(s, c), c) == s
  {
    if c in s {
      var i := IndexOf(s, c);
      JoinSplit(s[i + 1..], c);
      assert s == s[..i] + [c] + s[i + 1..];
    }
  }

  /** Splitting a join of separator-free pieces gives the pieces back. */
  lemma {:induction false} SplitJoin(parts: seq<string>, c: char)
    requires |parts| >= 1
    requires forall k :: 0 <= k < |parts| ==> c !in parts[k]
    ensures Split(Join(parts, c), c) == parts
  {
    if |parts| > 1 {
      assert parts == [parts[0]] + parts[1..];
      SplitJoinHead(parts, c);
      SplitJoin(parts[1..], c);
    } else {
      assert c !in Join(parts, c);
    }
  }

  /** A join splits first at the separator after its first piece. */
  lemma SplitJoinHead(parts: seq<string>, c: char)
    requires |parts| > 1 && c !in parts[0]
    ensures Split(Join(parts, c), c) == [parts[0]] + Split(Join(parts[1..], c), c)
  {
    var s := Join(parts, c);
    var p, rest := parts[0], Join(parts[1..], c);
    assert s == p + [c] + rest;
    assert s[..|p|] == p && s[|p|] == c && s[|p| + 1..] == rest;
    IndexOfUnique(s, c, |p|);
  }

  // ----------------------------------------------------------------- replace

  /** `s.replace(c, '', 1)`: removes the first `c`, if there is one. */
  function RemoveFirst(s: string, c: char): (r: string)
    ensures c in s ==> |r| == |s| - 1
    ensures c !in s ==> r == s
  {
    if c in s then
      var k := IndexOf(s, c);
      s[..k] + s[k + 1..]
    else
      s
  }

  // --------------------------------------------------------------------- int

  /** The value of a run of decimal digits, most significant first. */
  function DigitsValue(s: string): (n: nat)
    requires AllDigits(s)
  {
    if s == [] then 0
    else DigitsValue(s[..|s| - 1]) * 10 + (s[|s| - 1] - '0') as nat
  }

  /**
   * CPython's default limit on the digits `int` converts from decimal text
   * (`sys.get_int_max_str_digits()`); a longer run raises `ValueError`.
   */
  const MaxStrDigits: nat := 4300

  /** `int(t)`: surrounding whitespace, an optional sign, then one to `MaxStrDigits` digits. */
  function ParseInt(t: string): Option<int> {
    ParseStripped(Trim(t))
  }

  /** `int` on text without surrounding whitespace: an optional sign, then one or more digits. */
  function ParseStripped(u: string): Option<int> {
    if |u| > 0 && (u[0] == '+' || u[0] == '-') then
      if IsDigits(u[1..]) && |u| - 1 <= MaxStrDigits then
        var magnitude: int := DigitsValue(u[1..]);
        Some(if u[0] == '-' then -magnitude else magnitude)
      else None
    else if IsDigits(u) && |u| <= MaxStrDigits then Some(DigitsValue(u))
    else None
  }

  /** The decimal spelling of a natural number (`str(n)`), without leading zeros. */
  function NatToDecimal(n: nat): (r: string)
    ensures IsDigits(r)
    ensures |r| > 1 ==> r[0] != '0'
  {
    if n < 10 then ['0' + n as char]
    else NatToDecimal(n / 10) + ['0' + (n % 10) as char]
  }

  lemma {:induction false} DigitsValueOfDecimal(n: nat)
    ensures DigitsValue(NatToDecimal(n)) == n
  {
    if n >= 10 {
      var r := NatToDecimal(n);
      assert r[..|r| - 1] == NatToDecimal(n / 10);
      DigitsValueOfDecimal(n / 10);
    }
  }

  lemma DigitNotSpace(c: char)
    requires IsDigit(c)
    ensures !IsSpace(c)
  {
  }

  /** `int(str(n)) == n` for `n` of at most `MaxStrDigits` digits. */
  lemma ParseDecimal(n: nat)
    requires |NatToDecimal(n)| <= MaxStrDigits
    ensures ParseInt(NatToDecimal(n)) == Some(n)
  {
    ParseDigits(NatToDecimal(n));
    DigitsValueOfDecimal(n);
  }

  /** `int` reads a bare run of digits as its value. */
  lemma ParseDigits(d: string)
    requires IsDigits(d) && |d| <= MaxStrDigits
    ensures ParseInt(d) == Some(DigitsValue(d))
  {
    var none: string := [];
    ParseIntOfParts(none, none, d, none);
    assert none + none + d + none == d;
  }

  /** An optional sign: nothing, `+` or `-`. */
  predicate IsSign(sign: string) {
    |sign| <= 1 && (sign != [] ==> sign[0] == '+' || sign[0] == '-')
  }

  /** `t` is whitespace `a`, a sign, a run `d` of one to `MaxStrDigits` digits, then whitespace `b`. */
  ghost predicate IntParts(t: string, a: string, sign: string, d: string, b: string) {
    AllSpace(a) && AllSpace(b) && IsSign(sign) && IsDigits(d) && |d| <= MaxStrDigits && t == a + sign + d + b
  }

  /** The texts `int` accepts. */
  ghost predicate IntText(t: string) {
    exists a, sign, d, b :: IntParts(t, a, sign, d, b)
  }

  /** `int` reads a padded, optionally signed run of digits as its signed value. */
  lemma ParseIntOfParts(a: string, sign: string, d: string, b: string)
    requires AllSpace(a) && AllSpace(b) && IsSign(sign) && IsDigits(d) && |d| <= MaxStrDigits
    ensures ParseInt(a + sign + d + b) ==
      Some(if sign != [] && sign[0] == '-' then -(DigitsValue(d) as int) else DigitsValue(d))
  {
    TrimSigned(a, sign, d, b);
    ParseSigned(sign, d);
  }

  lemma TrimSigned(a: string, sign: string, d: string, b: string)
    requires AllSpace(a) && AllSpace(b) && IsSign(sign) && IsDigits(d)
    ensures Trim(a + sign + d + b) == sign + d
  {
    var x := sign + d;
    assert a + sign + d + b == a + x + b;
    assert x[|x| - 1] == d[|d| - 1];
    DigitNotSpace(d[|d| - 1]);
    DigitNotSpace(d[0]);
    assert x[0] == if sign == [] then d[0] else sign[0];
    TrimOfPadded(a, x, b);
  }

  lemma ParseSigned(sign: string, d: string)
    requires IsSign(sign) && IsDigits(d) && |d| <= MaxStrDigits
    ensures ParseStripped(sign + d) ==
      Some(if sign != [] && sign[0] == '-' then -(DigitsValue(d) as int) else DigitsValue(d))
  {
    var x := sign + d;
    if sign == [] {
      assert x == d;
      assert x[0] != '+' && x[0] != '-';
    } else {
      assert x[0] == sign[0] && x[1..] == d;
    }
  }

  /** `int` succeeds exactly on a padded, optionally signed run of one to `MaxStrDigits` digits. */
  lemma ParseIntIff(t: string)
    ensures ParseInt(t).Some? <==> IntText(t)
  {
    if IntText(t) {
      var a, sign, d, b :| IntParts(t, a, sign, d, b);
      ParseIntOfParts(a, sign, d, b);
    }
    if ParseInt(t).Some? {
      var a, sign, d, b := AcceptedParts(t);
    }
  }

  /** Text `int` accepts splits into padding, a sign and digits. */
  lemma AcceptedParts(t: string) returns (a: string, sign: string, d: string, b: string)
    requires ParseInt(t).Some?
    ensures IntParts(t, a, sign, d, b)
  {
    var lo, hi := TrimBounds(t);
    var u := t[lo..hi];
    sign, d := StrippedParts(u);
    a, b := t[..lo], t[hi..];
    SplitAround(t, lo, hi, sign, d);
  }

  lemma SplitAround(t: string, lo: nat, hi: nat, x: string, y: string)
    requires lo <= hi <= |t| && t[lo..hi] == x + y
    ensures t == t[..lo] + x + y + t[hi..]
  {
    assert t[..hi] == t[..lo] + t[lo..hi];
    assert t == t[..hi] + t[hi..];
  }

  /** Text `int` accepts after stripping is a sign followed by digits. */
  lemma StrippedParts(u: string) returns (sign: string, d: string)
    requires ParseStripped(u).Some?
    ensures IsSign(sign) && IsDigits(d) && |d| <= MaxStrDigits && u == sign + d
  {
    if u[0] == '+' || u[0] == '-' {
      sign, d := u[..1], u[1..];
    } else {
      sign, d := [], u;
    }
  }

  /** A run of more than `MaxStrDigits` digits is refused, however it is padded or signed. */
  lemma TooManyDigitsRefused(a: string, sign: string, d: string, b: string)
    requires AllSpace(a) && AllSpace(b) && IsSign(sign) && IsDigits(d) && |d| > MaxStrDigits
    ensures ParseInt(a + sign + d + b) == None
  {
    TrimSigned(a, sign, d, b);
    SignedTooLong(sign, d);
  }

  lemma SignedTooLong(sign: string, d: string)
    requires IsSign(sign) && IsDigits(d) && |d| > MaxStrDigits
    ensures ParseStripped(sign + d) == None
  {
    var x := sign + d;
    if sign == [] {
      assert x == d;
    } else {
      assert x[1..] == d;
    }
  }
}
