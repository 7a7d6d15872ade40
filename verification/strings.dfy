/** The Python string operations the service relies on, stated over `seq<char>`:
    blankness after `strip()`, `find`/`rfind` of one character, `sep.join`, splitting,
    `Path.suffix`, ASCII lower-casing and decimal rendering of page numbers. */
module Strings {
  import opened Wrappers

  /** Python's `str.isspace` for one character: exactly the characters `str.strip()` removes. */
  predicate IsSpace(c: char) {
    || c == ' ' || c == '\t' || c == '\n' || c == '\r'
    || c == '\U{000B}' || c == '\U{000C}'
    || ('\U{001C}' <= c <= '\U{001F}')
    || c == '\U{0085}' || c == '\U{00A0}' || c == '\U{1680}'
    || ('\U{2000}' <= c <= '\U{200A}')
    || c == '\U{2028}' || c == '\U{2029}' || c == '\U{202F}' || c == '\U{205F}'
    || c == '\U{3000}'
  }

  /** `s.strip()` is the empty string, i.e. `s` is falsy once stripped. */
  predicate IsBlank(s: string) {
    |s| == 0 || (IsSpace(s[0]) && IsBlank(s[1..]))
  }

  /** Blank means every character is white space. */
  lemma {:induction false} BlankAll(s: string)
    ensures IsBlank(s) <==> forall i :: 0 <= i < |s| ==> IsSpace(s[i])
  {
    if |s| > 0 {
      BlankAll(s[1..]);
      assert forall i :: 1 <= i < |s| ==> s[i] == s[1..][i - 1];
    }
  }

  lemma {:induction false} BlankConcat(a: string, b: string)
    ensures IsBlank(a + b) <==> IsBlank(a) && IsBlank(b)
  {
    if |a| > 0 {
      assert (a + b)[0] == a[0];
      assert (a + b)[1..] == a[1..] + b;
      BlankConcat(a[1..], b);
    } else {
      assert a + b == b;
    }
  }

  /** `s.find(c)`: the first position of `c`, `None` where Python answers -1. */
  function FirstIndexOf(s: string, c: char): (r: Option<nat>)
    ensures r.None? <==> forall k :: 0 <= k < |s| ==> s[k] != c
    ensures r.Some? ==> r.value < |s| && s[r.value] == c
    ensures r.Some? ==> forall k :: 0 <= k < r.value ==> s[k] != c
  {
    FirstIndexFrom(s, c, 0)
  }

  /** The first position of `c` at or after `n`. */
  function FirstIndexFrom(s: string, c: char, n: nat): (r: Option<nat>)
    requires n <= |s|
    ensures r.None? <==> forall k :: n <= k < |s| ==> s[k] != c
    ensures r.Some? ==> n <= r.value < |s| && s[r.value] == c
    ensures r.Some? ==> forall k :: n <= k < r.value ==> s[k] != c
    decreases |s| - n
  {
    if n == |s| then None
    else if s[n] == c then Some(n)
    else FirstIndexFrom(s, c, n + 1)
  }

  /** `s.rfind(c)`: the last position of `c`, `None` where Python answers -1. */
  function LastIndexOf(s: string, c: char): (r: Option<nat>)
    ensures r.None? <==> forall k :: 0 <= k < |s| ==> s[k] != c
    ensures r.Some? ==> r.value < |s| && s[r.value] == c
    ensures r.Some? ==> forall k :: r.value < k < |s| ==> s[k] != c
  {
    LastIndexBelow(s, c, |s|)
  }

  /** The last position of `c` below `n`. */
  function LastIndexBelow(s: string, c: char, n: nat): (r: Option<nat>)
    requires n <= |s|
    ensures r.None? <==> forall k :: 0 <= k < n ==> s[k] != c
    ensures r.Some? ==> r.value < n && s[r.value] == c
    ensures r.Some? ==> forall k :: r.value < k < n ==> s[k] != c
  {
    if n == 0 then None
    else if s[n - 1] == c then Some(n - 1)
    else LastIndexBelow(s, c, n - 1)
  }

  /** The last occurrence is the one with no further occurrence after it. */
  lemma LastIndexOfIs(s: string, c: char, i: nat)
    requires i < |s| && s[i] == c
    requires forall k :: i < k < |s| ==> s[k] != c
    ensures LastIndexOf(s, c) == Some(i)
  {
  }

  /** Searching backwards finds an occurrence in the tail before anything in the head. */
  lemma LastIndexOfAppend(a: string, b: string, c: char)
    requires LastIndexOf(b, c).Some?
    ensures LastIndexOf(a + b, c) == Some(|a| + LastIndexOf(b, c).value)
  {
    var i := LastIndexOf(b, c).value;
    var s := a + b;
    assert forall k :: |a| + i < k < |s| ==> s[k] == b[k - |a|];
    LastIndexOfIs(s, c, |a| + i);
  }

  /** With no occurrence in the tail, the search lands where it lands in the head. */
  lemma LastIndexOfAppendMissing(a: string, b: string, c: char)
    requires LastIndexOf(b, c).None?
    ensures LastIndexOf(a + b, c) == LastIndexOf(a, c)
  {
    var s := a + b;
    assert forall k :: |a| <= k < |s| ==> s[k] == b[k - |a|];
    match LastIndexOf(a, c)
    case None =>
      assert forall k :: 0 <= k < |a| ==> s[k] == a[k];
    case Some(i) =>
      assert forall k :: i < k < |a| ==> s[k] == a[k];
      LastIndexOfIs(s, c, i);
  }

  /** `sep.join(parts)`. */
  function Join(parts: seq<string>, sep: string): string {
    if |parts| == 0 then ""
    else if |parts| == 1 then parts[0]
    else parts[0] + sep + Join(parts[1..], sep)
  }

  /** Every string of the list is blank. */
  predicate AllBlank(parts: seq<string>) {
    forall i :: 0 <= i < |parts| ==> IsBlank(parts[i])
  }

  /** No string of the list is blank. */
  predicate NoneBlank(parts: seq<string>) {
    forall i :: 0 <= i < |parts| ==> !IsBlank(parts[i])
  }

  lemma AllBlankCons(parts: seq<string>)
    requires |parts| > 0
    ensures AllBlank(parts) <==> IsBlank(parts[0]) && AllBlank(parts[1..])
  {
    if IsBlank(parts[0]) && AllBlank(parts[1..]) {
      forall i | 1 <= i < |parts| ensures IsBlank(parts[i]) {
        assert parts[i] == parts[1..][i - 1];
      }
    }
  }

  /** Joining with a blank separator gives a blank string exactly when every part is blank. */
  lemma {:induction false} JoinBlank(parts: seq<string>, sep: string)
    requires IsBlank(sep)
    ensures IsBlank(Join(parts, sep)) <==> AllBlank(parts)
  {
    if |parts| > 1 {
      JoinBlank(parts[1..], sep);
      BlankConcat(parts[0], sep);
      BlankConcat(parts[0] + sep, Join(parts[1..], sep));
      AllBlankCons(parts);
    }
  }

  /** A list with no blank part joins to a blank string only when it is empty. */
  lemma JoinNoneBlank(parts: seq<string>, sep: string)
    requires IsBlank(sep) && NoneBlank(parts)
    ensures IsBlank(Join(parts, sep)) <==> |parts| == 0
  {
    JoinBlank(parts, sep);
    if |parts| > 0 {
      assert !IsBlank(parts[0]);
    }
  }

  /** `s.split(c)`: the pieces between occurrences of `c`; there is always at least one. */
  function Split(s: string, c: char): (r: seq<string>)
    ensures |r| >= 1
    ensures forall k :: 0 <= k < |r| ==> c !in r[k]
    decreases |s|
  {
    match FirstIndexOf(s, c)
    case None => [s]
    case Some(i) => [s[..i]] + Split(s[i + 1..], c)
  }

  /** Splitting undoes joining, provided no part contains the separator. */
  lemma {:induction false} SplitJoin(parts: seq<string>, c: char)
    requires |parts| >= 1
    requires forall k :: 0 <= k < |parts| ==> c !in parts[k]
    ensures Split(Join(parts, [c]), c) == parts
  {
    if |parts| > 1 {
      var p := parts[0];
      var rest := Join(parts[1..], [c]);
      var s := p + [c] + rest;
      assert Join(parts, [c]) == s;
      assert s[..|p|] == p;
      assert s[|p|] == c;
      var f := FirstIndexOf(s, c);
      assert f == Some(|p|);
      assert s[|p| + 1..] == rest;
      SplitJoin(parts[1..], c);
      assert Split(s, c) == [p] + Split(rest, c);
    }
  }

  /** `s.endswith(t)`. */
  predicate EndsWith(s: string, t: string) {
    |t| <= |s| && forall k :: 0 <= k < |t| ==> t[k] == s[|s| - |t| + k]
  }

  /** The final path component, `Path(path).name` for a path without trailing separators. */
  function BaseName(path: string): (r: string)
    ensures '/' !in r
  {
    match LastIndexOf(path, '/')
    case None => path
    case Some(i) => path[i + 1..]
  }

  /** `Path(path).suffix`: from the last dot of the final component, unless that dot is its
      first or last character, in which case there is no suffix. */
  function Suffix(path: string): (r: string)
    ensures r == "" || (|r| >= 2 && r[0] == '.' && forall k :: 1 <= k < |r| ==> r[k] != '.')
    ensures var name := BaseName(path); var dot := LastIndexOf(name, '.');
      && (r != "" <==> dot.Some? && 0 < dot.value < |name| - 1)
      && (r != "" ==> r == name[dot.value..])
  {
    NameSuffix(BaseName(path))
  }

  /** The suffix of a final path component. */
  function NameSuffix(name: string): (r: string)
    ensures r == "" || (|r| >= 2 && r[0] == '.' && forall k :: 1 <= k < |r| ==> r[k] != '.')
    ensures var dot := LastIndexOf(name, '.');
      && (r != "" <==> dot.Some? && 0 < dot.value < |name| - 1)
      && (r != "" ==> r == name[dot.value..])
  {
    match LastIndexOf(name, '.')
    case None => ""
    case Some(i) =>
      if 0 < i < |name| - 1 then
        name[i..]
      else ""
  }

  /** The final component ends the path. */
  lemma BaseNameEnds(path: string)
    ensures EndsWith(path, BaseName(path))
  {
  }

  /** A suffix is a proper ending of the final component: the part of the name before its
      dot is never empty. */
  lemma SuffixEnds(path: string)
    ensures Suffix(path) != "" ==>
      |Suffix(path)| < |BaseName(path)| && EndsWith(BaseName(path), Suffix(path))
  {
    NameSuffixEnds(BaseName(path));
  }

  lemma NameSuffixEnds(name: string)
    ensures NameSuffix(name) != "" ==> |NameSuffix(name)| < |name| && EndsWith(name, NameSuffix(name))
  {
    match LastIndexOf(name, '.')
    case None =>
    case Some(i) =>
      if 0 < i < |name| - 1 {
        NameSuffixAt(name, i);
        var r := name[i..];
        assert forall k :: 0 <= k < |r| ==> r[k] == name[|name| - |r| + k];
      }
  }

  /** A name without separators is its own final component. */
  lemma BaseNameOfName(name: string)
    requires '/' !in name
    ensures BaseName(name) == name
  {
  }

  /** Prepending to a path only lengthens its final component when the appended part has no
      separator, and leaves it alone otherwise. */
  lemma BaseNameAppend(p: string, name: string)
    ensures '/' in name ==> BaseName(p + name) == BaseName(name)
    ensures '/' !in name ==> BaseName(p + name) == BaseName(p) + name
  {
    if '/' in name {
      LastIndexOfAppend(p, name, '/');
      var i := LastIndexOf(name, '/').value;
      assert (p + name)[|p| + i + 1..] == name[i + 1..];
    } else {
      LastIndexOfAppendMissing(p, name, '/');
      match LastIndexOf(p, '/')
      case None =>
      case Some(k) =>
        assert (p + name)[k + 1..] == p[k + 1..] + name;
    }
  }

  /** Prepending anything to a path with a suffix leaves the suffix unchanged. */
  lemma SuffixAppend(p: string, name: string)
    requires Suffix(name) != ""
    ensures Suffix(p + name) == Suffix(name)
  {
    BaseNameAppend(p, name);
    if '/' !in name {
      BaseNameOfName(name);
      NameSuffixAppend(BaseName(p), name);
    }
  }

  lemma NameSuffixAppend(q: string, name: string)
    requires NameSuffix(name) != ""
    ensures NameSuffix(q + name) == NameSuffix(name)
  {
    var i := LastIndexOf(name, '.').value;
    assert 0 < i < |name| - 1;
    NameSuffixAt(name, i);
    LastIndexOfAppend(q, name, '.');
    NameSuffixAt(q + name, |q| + i);
    assert (q + name)[|q| + i..] == name[i..];
  }

  lemma NameSuffixAt(name: string, i: nat)
    requires LastIndexOf(name, '.') == Some(i) && 0 < i < |name| - 1
    ensures NameSuffix(name) == name[i..]
  {
  }

  /** ASCII upper-case letters mapped to lower case, everything else kept. */
  function LowerChar(c: char): char {
    if 'A' <= c <= 'Z' then (c as int - 'A' as int + 'a' as int) as char else c
  }

  /** `s.lower()` on the ASCII range. */
  function Lower(s: string): (r: string)
    ensures |r| == |s|
    ensures forall i :: 0 <= i < |s| ==> r[i] == LowerChar(s[i])
  {
    seq(|s|, i requires 0 <= i < |s| => LowerChar(s[i]))
  }

  /** The decimal digit for `d`. */
  function DigitChar(d: nat): char
    requires d < 10
  {
    ('0' as int + d) as char
  }

  predicate IsDigit(c: char) {
    '0' <= c <= '9'
  }

  /** `str(n)` for a natural number: decimal digits, no leading zero. */
  function NatToString(n: nat): (s: string)
    ensures |s| >= 1
    ensures forall i :: 0 <= i < |s| ==> IsDigit(s[i])
    ensures |s| > 1 ==> s[0] != '0'
  {
    if n < 10 then [DigitChar(n)]
    else NatToString(n / 10) + [DigitChar(n % 10)]
  }

  /** `int(s)` for a string of decimal digits. */
  function DigitsValue(s: string): nat
    requires forall i :: 0 <= i < |s| ==> IsDigit(s[i])
  {
    if |s| == 0 then 0
    else
      var d := s[|s| - 1];
      assert IsDigit(d);
      DigitsValue(s[..|s| - 1]) * 10 + (d as int - '0' as int)
  }

  /** Reading back the decimal rendering recovers the number, so distinct numbers render
      differently. */
  lemma {:induction false} NatToStringRoundTrip(n: nat)
    ensures DigitsValue(NatToString(n)) == n
  {
    if n >= 10 {
      var s := NatToString(n);
      assert s[..|s| - 1] == NatToString(n / 10);
      NatToStringRoundTrip(n / 10);
    }
  }

  lemma NatToStringInjective(m: nat, n: nat)
    ensures NatToString(m) == NatToString(n) <==> m == n
  {
    NatToStringRoundTrip(m);
    NatToStringRoundTrip(n);
  }
}
