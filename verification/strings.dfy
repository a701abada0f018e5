/** The Python string primitives the server relies on: `find`, `split`,
    `split(sep, 1)`, `strip`, `lower`, `int` and `str` on naturals.
    Bytes and characters share one alphabet (`char`). */
module Strings {
  import opened Wrappers

  // ---------------------------------------------------------------------
  // Whitespace, strip and lower
  // ---------------------------------------------------------------------

  /** Python's `str.isspace` for one character: the ASCII controls
      TAB..CR and FS..US, space, and the Unicode space separators. */
  predicate IsSpace(c: char) {
    || c == ' '
    || ('\t' <= c <= '\r')
    || ('\U{1C}' <= c <= '\U{1F}')
    || c == '\U{85}' || c == '\U{A0}' || c == '\U{1680}'
    || ('\U{2000}' <= c <= '\U{200A}')
    || c == '\U{2028}' || c == '\U{2029}' || c == '\U{202F}'
    || c == '\U{205F}' || c == '\U{3000}'
  }

  predicate AllSpace(s: string) {
    forall i :: 0 <= i < |s| ==> IsSpace(s[i])
  }

  /** Neither end of `s` is whitespace: `s.strip() == s`. */
  predicate Trimmed(s: string) {
    s == [] || (!IsSpace(s[0]) && !IsSpace(s[|s| - 1]))
  }

  /** Where `s.lstrip()` starts when the scan begins at `i`: the first
      position at or after `i` that is not whitespace. */
  function SpaceEndFrom(s: string, i: nat): (n: nat)
    requires i <= |s|
    ensures i <= n <= |s|
    ensures forall k :: i <= k < n ==> IsSpace(s[k])
    ensures n == |s| || !IsSpace(s[n])
    decreases |s| - i
  {
    if i < |s| && IsSpace(s[i]) then SpaceEndFrom(s, i + 1) else i
  }

  /** Where `s.rstrip()` ends when the scan begins at `j` and may not pass
      `lo`: the last position after which only whitespace precedes `j`. */
  function SpaceStartBefore(s: string, lo: nat, j: nat): (n: nat)
    requires lo <= j <= |s|
    ensures lo <= n <= j
    ensures forall k :: n <= k < j ==> IsSpace(s[k])
    ensures n == lo || !IsSpace(s[n - 1])
  {
    if lo < j && IsSpace(s[j - 1]) then SpaceStartBefore(s, lo, j - 1) else j
  }

  /** Where `s.strip()` starts: the length of the leading whitespace. */
  function StripStart(s: string): nat {
    SpaceEndFrom(s, 0)
  }

  /** Where `s.strip()` ends. */
  function StripEnd(s: string): nat {
    SpaceStartBefore(s, StripStart(s), |s|)
  }

  /** `s.strip()`: the slice of `s` between its leading and trailing
      whitespace. */
  function Strip(s: string): (r: string)
    ensures Trimmed(r)
    ensures StripStart(s) + |r| <= |s| && r == s[StripStart(s)..StripStart(s) + |r|]
  {
    s[StripStart(s)..StripEnd(s)]
  }

  /** What `strip` removes is whitespace, on both sides. */
  lemma StripRemovesSpace(s: string)
    ensures AllSpace(s[..StripStart(s)]) && AllSpace(s[StripStart(s) + |Strip(s)|..])
  {
    var a, e := StripStart(s), StripEnd(s);
    assert forall k :: 0 <= k < a ==> s[..a][k] == s[k];
    assert forall k :: 0 <= k < |s| - e ==> s[e..][k] == s[e + k];
  }

  /** A line is blank for the header loop exactly when it is all
      whitespace. */
  lemma StripEmptyIffAllSpace(s: string)
    ensures Strip(s) == [] <==> AllSpace(s)
  {
    var a, e := StripStart(s), StripEnd(s);
    if a == e {
      assert forall k :: 0 <= k < |s| ==> IsSpace(s[k]) by {
        forall k | 0 <= k < |s| ensures IsSpace(s[k]) { assert k < a || e <= k; }
      }
    } else {
      assert !IsSpace(s[a]);
    }
  }

  /** Stripping removes exactly the whitespace around a trimmed core:
      `(a + k + b).strip() == k` when `a` and `b` are all whitespace. */
  lemma StripPadded(a: string, k: string, b: string)
    requires AllSpace(a) && AllSpace(b) && Trimmed(k)
    ensures Strip(a + k + b) == k
  {
    var s := a + k + b;
    assert forall i :: 0 <= i < |a| ==> s[i] == a[i];
    assert forall i :: |a| + |k| <= i < |s| ==> s[i] == b[i - |a| - |k|];
    if k == [] {
      StripEmptyIffAllSpace(s);
    } else {
      assert s[|a|] == k[0] && s[|a| + |k| - 1] == k[|k| - 1];
      assert StripStart(s) == |a|;
      assert StripEnd(s) == |a| + |k|;
      assert s[|a|..|a| + |k|] == k;
    }
  }

  /** Stripping a string whose ends are not whitespace changes nothing,
      and neither does a leading space added in front of it. */
  lemma StripTrimmed(s: string)
    requires Trimmed(s)
    ensures Strip(s) == s
    ensures Strip([' '] + s) == s
  {
    assert StripStart(s) == 0;
    assert StripEnd(s) == |s|;
    var t := [' '] + s;
    assert SpaceEndFrom(t, 0) == SpaceEndFrom(t, 1);
    assert StripStart(t) == 1;
    assert StripEnd(t) == |t|;
    assert t[1..] == s;
  }

  function LowerChar(c: char): char {
    if 'A' <= c <= 'Z' then (c as int + 32) as char else c
  }

  /** `s.lower()` restricted to ASCII letters. */
  function Lower(s: string): (r: string)
    ensures |r| == |s|
    ensures forall i :: 0 <= i < |s| ==> r[i] == LowerChar(s[i])
  {
    seq(|s|, i requires 0 <= i < |s| => LowerChar(s[i]))
  }

  lemma LowerAppend(a: string, b: string)
    ensures Lower(a + b) == Lower(a) + Lower(b)
  {
    assert Lower(a + b) == Lower(a) + Lower(b);
  }

  // ---------------------------------------------------------------------
  // find
  // ---------------------------------------------------------------------

  /** `p` occurs in `s` starting at index `i`. */
  predicate OccursAt(s: string, p: string, i: int) {
    0 <= i && i + |p| <= |s| && s[i..i + |p|] == p
  }

  /** `p` occurs nowhere in `s`. */
  ghost predicate Free(s: string, p: string) {
    forall j :: !OccursAt(s, p, j)
  }

  /** `i` is the first occurrence of `p` in `s`. */
  ghost predicate FirstAt(s: string, p: string, i: int) {
    OccursAt(s, p, i) && forall j :: 0 <= j < i ==> !OccursAt(s, p, j)
  }

  function FindFrom(s: string, p: string, k: nat): (r: Option<nat>)
    requires k <= |s|
    ensures r.Some? ==> k <= r.value && r.value + |p| <= |s|
    decreases |s| - k
  {
    if k + |p| > |s| then None
    else if s[k..k + |p|] == p then Some(k)
    else FindFrom(s, p, k + 1)
  }

  /** `s.find(p)`, with `None` for Python's `-1`. */
  function Find(s: string, p: string): (r: Option<nat>)
    ensures r.Some? ==> r.value + |p| <= |s|
  {
    FindFrom(s, p, 0)
  }

  /** The scan from `k` answers the first occurrence at or after `k`, or
      `None` when there is none. */
  lemma {:induction false} FindFromSpec(s: string, p: string, k: nat)
    requires k <= |s|
    ensures var r := FindFrom(s, p, k);
            && (r.Some? ==> OccursAt(s, p, r.value) && forall j :: k <= j < r.value ==> !OccursAt(s, p, j))
            && (r.None? ==> forall j :: k <= j ==> !OccursAt(s, p, j))
    decreases |s| - k
  {
    if k + |p| <= |s| && s[k..k + |p|] != p {
      FindFromSpec(s, p, k + 1);
    }
  }

  /** `Find` answers exactly the first occurrence, and `None` exactly when
      there is no occurrence at all. */
  lemma FindSpec(s: string, p: string)
    ensures Find(s, p).Some? <==> !Free(s, p)
    ensures Find(s, p).Some? ==> FirstAt(s, p, Find(s, p).value)
  {
    FindFromSpec(s, p, 0);
  }

  /** Find returns the first occurrence whenever there is one. */
  lemma FindFirst(s: string, p: string, i: nat)
    requires FirstAt(s, p, i)
    ensures Find(s, p) == Some(i)
  {
    FindSpec(s, p);
    assert OccursAt(s, p, i);
  }

  /** A first occurrence inside a prefix is still the first occurrence
      once anything is appended. */
  lemma FirstAtExtend(s: string, p: string, i: nat, t: string)
    requires FirstAt(s, p, i)
    ensures FirstAt(s + t, p, i)
  {
    assert (s + t)[i..i + |p|] == s[i..i + |p|];
    forall j | 0 <= j < i
      ensures !OccursAt(s + t, p, j)
    {
      assert !OccursAt(s, p, j);
      assert j + |p| <= |s|;
      assert (s + t)[j..j + |p|] == s[j..j + |p|];
    }
  }

  /** If the first character of `p` never occurs in `a`, the first
      occurrence of `p` in `a + p + t` is right after `a`. */
  lemma FindAfterFree(a: string, p: string, t: string)
    requires p != []
    requires forall k :: 0 <= k < |a| ==> a[k] != p[0]
    ensures Find(a + p + t, p) == Some(|a|)
  {
    var s := a + p + t;
    assert s[|a|..|a| + |p|] == p;
    forall j | 0 <= j < |a|
      ensures !OccursAt(s, p, j)
    {
      assert s[j..j + |p|][0] == s[j];
    }
    FindFirst(s, p, |a|);
  }

  /** If the first character of `p` never occurs in `a`, then `p` does
      not occur in `a`. */
  lemma FreeOfHead(a: string, p: string)
    requires p != []
    requires forall k :: 0 <= k < |a| ==> a[k] != p[0]
    ensures Free(a, p)
  {
    forall j
      ensures !OccursAt(a, p, j)
    {
      if 0 <= j && j + |p| <= |a| {
        assert a[j..j + |p|][0] == a[j];
      }
    }
  }

  /** Nothing before the first occurrence contains the pattern. */
  lemma PrefixBeforeFirstIsFree(s: string, p: string, i: nat)
    requires p != [] && FirstAt(s, p, i)
    ensures Free(s[..i], p)
  {
    forall j
      ensures !OccursAt(s[..i], p, j)
    {
      if 0 <= j && j + |p| <= i {
        assert s[j..j + |p|] == s[..i][j..j + |p|];
        assert !OccursAt(s, p, j);
      }
    }
  }

  // ---------------------------------------------------------------------
  // split and join
  // ---------------------------------------------------------------------

  /** `sep.join(parts)`. */
  function Join(parts: seq<string>, sep: string): string {
    if |parts| == 0 then []
    else if |parts| == 1 then parts[0]
    else parts[0] + sep + Join(parts[1..], sep)
  }

  /** `s.split(sep)` for a non-empty separator: the pieces between the
      successive first occurrences of `sep`, scanning left to right. */
  function Split(s: string, sep: string): (r: seq<string>)
    requires sep != []
    ensures |r| >= 1
    decreases |s|
  {
    match Find(s, sep)
    case None => [s]
    case Some(i) => [s[..i]] + Split(s[i + |sep|..], sep)
  }

  /** Joining the pieces of a split with the same separator gives back
      the original string. */
  lemma {:induction false} JoinSplit(s: string, sep: string)
    requires sep != []
    ensures Join(Split(s, sep), sep) == s
    decreases |s|
  {
    var f := Find(s, sep);
    if f.Some? {
      var i := f.value;
      var rest := s[i + |sep|..];
      var ps := Split(rest, sep);
      JoinSplit(rest, sep);
      SplitUnfold(s, sep, i);
      JoinCons(s[..i], ps, sep);
      FindSpec(s, sep);
      assert s[i..i + |sep|] == sep;
      assert s == s[..i] + sep + rest;
    }
  }

  /** The first part is a prefix of the join. */
  lemma {:induction false} JoinPrefix(parts: seq<string>, sep: string)
    requires |parts| >= 1
    ensures |parts[0]| <= |Join(parts, sep)| && Join(parts, sep)[..|parts[0]|] == parts[0]
  {
    if |parts| > 1 {
      var j := Join(parts, sep);
      assert j == parts[0] + (sep + Join(parts[1..], sep));
    }
  }

  /** A one-character pattern is absent exactly when the character is. */
  lemma FreeOfChar(t: string, c: char)
    ensures Free(t, [c]) <==> forall k :: 0 <= k < |t| ==> t[k] != c
  {
    if !Free(t, [c]) {
      var j :| OccursAt(t, [c], j);
      assert t[j..j + 1][0] == t[j];
    } else {
      forall k | 0 <= k < |t|
        ensures t[k] != c
      {
        assert t[k..k + 1] == [t[k]];
        assert !OccursAt(t, [c], k);
      }
    }
  }

  lemma JoinThree(a: string, b: string, c: string, sep: string)
    ensures Join([a, b, c], sep) == a + sep + b + sep + c
  {
    calc {
      Join([a, b, c], sep);
      { assert [a, b, c][1..] == [b, c]; }
      a + sep + Join([b, c], sep);
      { assert [b, c][1..] == [c]; }
      a + sep + (b + sep + Join([c], sep));
      a + sep + b + sep + c;
    }
  }

  lemma JoinCons(x: string, ps: seq<string>, sep: string)
    requires |ps| >= 1
    ensures Join([x] + ps, sep) == x + sep + Join(ps, sep)
  {
    assert ([x] + ps)[1..] == ps;
  }

  /** No piece of a split contains the separator. */
  lemma {:induction false} SplitPiecesFree(s: string, sep: string)
    requires sep != []
    ensures forall i :: 0 <= i < |Split(s, sep)| ==> Free(Split(s, sep)[i], sep)
    decreases |s|
  {
    FindSpec(s, sep);
    match Find(s, sep)
    case None =>
    case Some(i) =>
      PrefixBeforeFirstIsFree(s, sep, i);
      SplitPiecesFree(s[i + |sep|..], sep);
  }

  lemma SplitUnfold(s: string, sep: string, i: nat)
    requires sep != [] && Find(s, sep) == Some(i)
    ensures Split(s, sep) == [s[..i]] + Split(s[i + |sep|..], sep)
  {
  }

  /** `s.split(sep, 1)`: `None` when `sep` is absent (the header loop then
      fails to unpack two values). */
  function SplitOnce(s: string, sep: string): (r: Option<(string, string)>)
    requires sep != []
    ensures r.None? <==> Free(s, sep)
    ensures r.Some? ==> s == r.value.0 + sep + r.value.1 && Free(r.value.0, sep)
  {
    FindSpec(s, sep);
    match Find(s, sep)
    case None => None
    case Some(i) =>
      assert s == s[..i] + sep + s[i + |sep|..];
      PrefixBeforeFirstIsFree(s, sep, i);
      Some((s[..i], s[i + |sep|..]))
  }

  /** Splitting once at a separator whose first character the prefix
      lacks gives that prefix and the rest. */
  lemma SplitOnceAfterFree(a: string, sep: string, t: string)
    requires sep != []
    requires forall k :: 0 <= k < |a| ==> a[k] != sep[0]
    ensures SplitOnce(a + sep + t, sep) == Some((a, t))
  {
    var s := a + sep + t;
    FindAfterFree(a, sep, t);
    assert s[..|a|] == a;
    assert s[|a| + |sep|..] == t;
  }

  /** Splitting at a first separator whose first character the prefix
      lacks peels that prefix off. */
  lemma SplitAfterFree(x: string, sep: string, rest: string)
    requires sep != []
    requires forall k :: 0 <= k < |x| ==> x[k] != sep[0]
    ensures Split(x + sep + rest, sep) == [x] + Split(rest, sep)
  {
    var s := x + sep + rest;
    FindAfterFree(x, sep, rest);
    assert s[|x| + |sep|..] == rest;
    assert s[..|x|] == x;
    SplitUnfold(s, sep, |x|);
  }

  /** Splitting a join gives the parts back, provided no part contains
      the separator's first character. */
  lemma {:induction false} SplitJoin(parts: seq<string>, sep: string)
    requires sep != [] && |parts| >= 1
    requires forall i, k :: 0 <= i < |parts| && 0 <= k < |parts[i]| ==> parts[i][k] != sep[0]
    ensures Split(Join(parts, sep), sep) == parts
    decreases |parts|
  {
    if |parts| == 1 {
      FreeOfHead(parts[0], sep);
      FindSpec(parts[0], sep);
    } else {
      SplitAfterFree(parts[0], sep, Join(parts[1..], sep));
      SplitJoin(parts[1..], sep);
      assert parts == [parts[0]] + parts[1..];
    }
  }

  /** Splitting on a one-character separator distributes over a join at
      that character. */
  lemma {:induction false} SplitAppend(a: string, c: char, b: string)
    ensures Split(a + [c] + b, [c]) == Split(a, [c]) + Split(b, [c])
    decreases |a|
  {
    var f := Find(a, [c]);
    if f.None? {
      SplitAppendNoSep(a, c, b);
    } else {
      var i := f.value;
      var a' := a[i + 1..];
      SplitAppendStep(a, c, b, i);
      SplitAppend(a', c, b);
      calc {
        Split(a + [c] + b, [c]);
        [a[..i]] + Split(a' + [c] + b, [c]);
        [a[..i]] + (Split(a', [c]) + Split(b, [c]));
        ([a[..i]] + Split(a', [c])) + Split(b, [c]);
        Split(a, [c]) + Split(b, [c]);
      }
    }
  }

  lemma SplitAppendStep(a: string, c: char, b: string, i: nat)
    requires Find(a, [c]) == Some(i)
    ensures Split(a + [c] + b, [c]) == [a[..i]] + Split(a[i + 1..] + [c] + b, [c])
    ensures Split(a, [c]) == [a[..i]] + Split(a[i + 1..], [c])
  {
    var s := a + [c] + b;
    FindSpec(a, [c]);
    FirstAtExtend(a, [c], i, [c] + b);
    assert a + ([c] + b) == s;
    FindFirst(s, [c], i);
    assert s[i + 1..] == a[i + 1..] + [c] + b;
    assert s[..i] == a[..i];
    SplitUnfold(s, [c], i);
    SplitUnfold(a, [c], i);
  }

  lemma SplitAppendNoSep(a: string, c: char, b: string)
    requires Find(a, [c]).None?
    ensures Split(a + [c] + b, [c]) == [a] + Split(b, [c])
    ensures Split(a, [c]) == [a]
  {
    var s := a + [c] + b;
    FindSpec(a, [c]);
    forall k | 0 <= k < |a|
      ensures a[k] != c
    {
      assert a[k..k + 1] == [a[k]];
      assert !OccursAt(a, [c], k);
    }
    FindAfterFree(a, [c], b);
    assert s[..|a|] == a;
    assert s[|a| + 1..] == b;
  }

  // ---------------------------------------------------------------------
  // str(n) and int(s)
  // ---------------------------------------------------------------------

  predicate IsDigit(c: char) {
    '0' <= c <= '9'
  }

  predicate AllDigits(s: string) {
    forall i :: 0 <= i < |s| ==> IsDigit(s[i])
  }

  function DigitChar(d: nat): (c: char)
    requires d < 10
    ensures IsDigit(c) && c as int - '0' as int == d
  {
    ('0' as int + d) as char
  }

  /** The value of a run of decimal digits, most significant first. */
  function DigitsValue(s: string): nat
    requires AllDigits(s)
  {
    if |s| == 0 then 0
    else DigitsValue(s[..|s| - 1]) * 10 + (s[|s| - 1] as int - '0' as int)
  }

  /** `str(n)` for a natural number. */
  function NatToString(n: nat): (r: string)
    ensures |r| >= 1 && AllDigits(r)
  {
    if n < 10 then [DigitChar(n)]
    else NatToString(n / 10) + [DigitChar(n % 10)]
  }

  /** `int(s)` for an already stripped string: an optional sign followed
      by at least one ASCII digit; anything else raises (`None`). */
  function ParseInt(s: string): (r: Option<int>)
    ensures r.Some? <==> (|s| >= 1 && AllDigits(s))
                         || (|s| >= 2 && (s[0] == '+' || s[0] == '-') && AllDigits(s[1..]))
    ensures r.Some? && s[0] != '-' ==> r.value >= 0
    ensures r.Some? && s[0] == '-' ==> r.value <= 0
  {
    if |s| >= 1 && (s[0] == '+' || s[0] == '-') then
      if |s| >= 2 && AllDigits(s[1..]) then
        var v: int := DigitsValue(s[1..]);
        Some(if s[0] == '-' then -v else v)
      else None
    else if |s| >= 1 && AllDigits(s) then Some(DigitsValue(s))
    else None
  }

  /** A leading zero does not change the value of a digit run. */
  lemma {:induction false} DigitsLeadingZero(t: string)
    requires AllDigits(t)
    ensures AllDigits("0" + t) && DigitsValue("0" + t) == DigitsValue(t)
  {
    assert AllDigits("0" + t) by {
      assert forall i :: 0 < i < |t| + 1 ==> ("0" + t)[i] == t[i - 1];
    }
    if |t| > 0 {
      DigitsLeadingZero(t[..|t| - 1]);
      assert ("0" + t)[..|t|] == "0" + t[..|t| - 1];
    }
  }

  /** `int("0" + t) == int(t)`: zero padding reads as the same number. */
  lemma LeadingZero(t: string)
    requires |t| >= 1 && AllDigits(t)
    ensures ParseInt("0" + t) == ParseInt(t)
  {
    DigitsLeadingZero(t);
  }

  /** A `+` sign changes nothing, and a `-` sign negates: for a digit run
      `t`, `int("+" + t) == int(t)` and `int("-" + t) == -int(t)`. */
  lemma SignedDigits(t: string)
    requires |t| >= 1 && AllDigits(t)
    ensures ParseInt(t).Some?
    ensures ParseInt("+" + t) == ParseInt(t)
    ensures ParseInt("-" + t) == Some(-ParseInt(t).value)
  {
    assert ("+" + t)[1..] == t;
    assert ("-" + t)[1..] == t;
  }

  lemma {:induction false} DigitsOfNat(n: nat)
    ensures DigitsValue(NatToString(n)) == n
  {
    if n >= 10 {
      var s := NatToString(n);
      DigitsOfNat(n / 10);
      assert s[..|s| - 1] == NatToString(n / 10);
    }
  }

  /** `int(str(n)) == n`: every Content-Length the server writes reads
      back as the length it was computed from. */
  lemma ParseShowRoundTrip(n: nat)
    ensures ParseInt(NatToString(n)) == Some(n)
  {
    DigitsOfNat(n);
  }

  /** Signed literals read back with their sign: `int("-" + str(n)) == -n`
      and `int("+" + str(n)) == n`. */
  lemma SignedRoundTrip(n: nat)
    ensures ParseInt("-" + NatToString(n)) == Some(-(n as int))
    ensures ParseInt("+" + NatToString(n)) == Some(n)
  {
    ParseShowRoundTrip(n);
    SignedDigits(NatToString(n));
  }
}
