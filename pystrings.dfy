/**
 * The fragment of Python's `str` and `int` semantics that the transcript
 * code relies on: `strip`, `lower`, `split` (on one character, on a
 * character class as `re.split` does, on a multi-character separator, and
 * with `maxsplit=1`), the `in` substring test, `endswith`, `int(s)` and
 * `str(n)`.
 */
module PyStrings {
  import opened Wrappers

  // ---------------------------------------------------------------------
  // Whitespace, strip and lower

  /** The characters of the Latin-1 range that Python's `str.strip()` removes. */
  predicate IsSpace(c: char) {
    c == ' ' || c == '\t' || c == '\n' || c == '\r' || c == '\U{B}' || c == '\U{C}'
    || ('\U{1C}' <= c <= '\U{1F}') || c == '\U{85}' || c == '\U{A0}'
  }

  /** `s.lstrip()` */
  function StripLeft(s: string): (r: string)
    ensures |r| <= |s|
    ensures r == [] || !IsSpace(r[0])
    decreases |s|
  {
    if s != [] && IsSpace(s[0]) then StripLeft(s[1..]) else s
  }

  /** `s.lstrip()` drops a prefix made only of whitespace. */
  lemma {:induction false} StripLeftSlice(s: string)
    ensures var r := StripLeft(s);
      r == s[|s| - |r|..] && forall i :: 0 <= i < |s| - |r| ==> IsSpace(s[i])
    decreases |s|
  {
    if s != [] && IsSpace(s[0]) {
      StripLeftSlice(s[1..]);
      var r := StripLeft(s);
      assert s[1..][|s| - 1 - |r|..] == s[|s| - |r|..];
      forall i | 0 < i < |s| - |r| ensures IsSpace(s[i]) {
        assert s[i] == s[1..][i - 1];
      }
    }
  }

  /** `s.rstrip()` */
  function StripRight(s: string): (r: string)
    ensures |r| <= |s|
    ensures r == [] || !IsSpace(r[|r| - 1])
    decreases |s|
  {
    if s != [] && IsSpace(s[|s| - 1]) then StripRight(s[..|s| - 1]) else s
  }

  /** `s.rstrip()` drops a suffix made only of whitespace. */
  lemma {:induction false} StripRightSlice(s: string)
    ensures var r := StripRight(s);
      r == s[..|r|] && forall i :: |r| <= i < |s| ==> IsSpace(s[i])
    decreases |s|
  {
    if s != [] && IsSpace(s[|s| - 1]) {
      StripRightSlice(s[..|s| - 1]);
      var r := StripRight(s);
      assert s[..|s| - 1][..|r|] == s[..|r|];
      forall i | |r| <= i < |s| - 1 ensures IsSpace(s[i]) {
        assert s[i] == s[..|s| - 1][i];
      }
    }
  }

  /** `s.strip()` */
  function Strip(s: string): (r: string)
    ensures |r| <= |s|
    ensures r == [] || (!IsSpace(r[0]) && !IsSpace(r[|r| - 1]))
  {
    StripRightSlice(StripLeft(s));
    StripRight(StripLeft(s))
  }

  /** `s.strip()` is the slice of `s` left after dropping whitespace at both ends. */
  lemma StripSlice(s: string)
    ensures var a := |s| - |StripLeft(s)|; var r := Strip(s);
      && a + |r| <= |s| && r == s[a..a + |r|]
      && (forall i :: 0 <= i < a ==> IsSpace(s[i]))
      && (forall i :: a + |r| <= i < |s| ==> IsSpace(s[i]))
  {
    var l := StripLeft(s);
    var a := |s| - |l|;
    var r := Strip(s);
    StripLeftSlice(s);
    StripRightSlice(l);
    assert r == l[..|r|];
    assert r == s[a..a + |r|];
    forall i | a + |r| <= i < |s| ensures IsSpace(s[i]) {
      assert s[i] == l[i - a];
    }
  }

  /** Stripping a string that starts and ends with a non-space changes nothing. */
  lemma StripTrimmed(s: string)
    requires s == [] || (!IsSpace(s[0]) && !IsSpace(s[|s| - 1]))
    ensures Strip(s) == s
  {
  }

  lemma StripIdempotent(s: string)
    ensures Strip(Strip(s)) == Strip(s)
  {
    StripTrimmed(Strip(s));
  }

  /** Python's `str.lower()` on the ASCII letters. */
  function LowerChar(c: char): (r: char)
    ensures IsSpace(r) <==> IsSpace(c)
    ensures r == '.' <==> c == '.'
    ensures r == '?' <==> c == '?'
  {
    if 'A' <= c <= 'Z' then (c as int - 'A' as int + 'a' as int) as char else c
  }

  /**
   * `s.lower()`: the result has no upper-case letter left, each upper-case
   * letter becomes its lower-case letter, and every other character stays.
   */
  function Lower(s: string): (r: string)
    ensures |r| == |s|
    ensures forall i :: 0 <= i < |r| ==> !('A' <= r[i] <= 'Z')
    ensures forall i :: 0 <= i < |s| ==> (r[i] == s[i] <==> !('A' <= s[i] <= 'Z'))
    ensures forall i :: 0 <= i < |s| && 'A' <= s[i] <= 'Z' ==> r[i] as int - s[i] as int == 'a' as int - 'A' as int
  {
    seq(|s|, i requires 0 <= i < |s| => LowerChar(s[i]))
  }

  // ---------------------------------------------------------------------
  // Splitting

  /** Number of characters of `s` that belong to `seps`. */
  function CountIn(s: string, seps: set<char>): nat {
    if s == [] then 0 else (if s[0] in seps then 1 else 0) + CountIn(s[1..], seps)
  }

  /**
   * Splitting at every character of `seps`, keeping empty pieces:
   * `s.split(c)` when `seps == {c}`, and `re.split` with a pattern that is a
   * union of single characters.
   */
  function SplitOn(s: string, seps: set<char>): (r: seq<string>)
    ensures |r| == CountIn(s, seps) + 1
    ensures forall k, c :: 0 <= k < |r| && c in r[k] ==> c !in seps
    decreases |s|
  {
    if s == [] then [""]
    else
      var rest := SplitOn(s[1..], seps);
      if s[0] in seps then [""] + rest else [[s[0]] + rest[0]] + rest[1..]
  }

  /** `sep.join(parts)` */
  function JoinWith<T>(parts: seq<seq<T>>, sep: seq<T>): seq<T>
    decreases |parts|
  {
    if |parts| == 0 then [] else if |parts| == 1 then parts[0] else parts[0] + sep + JoinWith(parts[1..], sep)
  }

  lemma JoinCons<T>(p: seq<T>, ps: seq<seq<T>>, sep: seq<T>)
    ensures JoinWith([p] + ps, sep) == if |ps| == 0 then p else p + sep + JoinWith(ps, sep)
  {
    assert ([p] + ps)[1..] == ps;
  }

  /** Putting `x` in front of the first part puts it in front of the joined string. */
  lemma JoinPrepend<T>(x: T, parts: seq<seq<T>>, sep: seq<T>)
    requires |parts| >= 1
    ensures JoinWith([[x] + parts[0]] + parts[1..], sep) == [x] + JoinWith(parts, sep)
  {
    var head, tail := parts[0], parts[1..];
    var moved := [[x] + head] + tail;
    assert moved[0] == [x] + head && moved[1..] == tail;
    if |tail| != 0 {
      var rest := JoinWith(tail, sep);
      assert JoinWith(moved, sep) == ([x] + head) + sep + rest;
      assert JoinWith(parts, sep) == head + sep + rest;
      assert ([x] + head) + sep + rest == [x] + (head + sep + rest);
    }
  }

  /** Splitting on one character loses nothing: joining the pieces gives `s` back. */
  lemma {:induction false} SplitOnJoin(s: string, c: char)
    ensures JoinWith(SplitOn(s, {c}), [c]) == s
    decreases |s|
  {
    if s != [] {
      var rest := SplitOn(s[1..], {c});
      SplitOnJoin(s[1..], c);
      assert s == [s[0]] + s[1..];
      if s[0] == c {
        assert SplitOn(s, {c}) == [""] + rest;
        JoinCons("", rest, [c]);
      } else {
        assert SplitOn(s, {c}) == [[s[0]] + rest[0]] + rest[1..];
        JoinPrepend(s[0], rest, [c]);
      }
    }
  }

  /** A string with no separator in it is one piece. */
  lemma {:induction false} SplitOnNone(s: string, seps: set<char>)
    requires forall i :: 0 <= i < |s| ==> s[i] !in seps
    ensures SplitOn(s, seps) == [s]
    decreases |s|
  {
    if s != [] {
      SplitOnNone(s[1..], seps);
      assert s[0] !in seps;
      assert [s[0]] + s[1..] == s;
    }
  }

  /** The piece in front of the first separator is split off first. */
  lemma {:induction false} SplitOnFirst(a: string, c: char, b: string, seps: set<char>)
    requires c in seps
    requires forall i :: 0 <= i < |a| ==> a[i] !in seps
    ensures SplitOn(a + [c] + b, seps) == [a] + SplitOn(b, seps)
    decreases |a|
  {
    if a != [] {
      SplitOnFirst(a[1..], c, b, seps);
      assert (a + [c] + b)[1..] == a[1..] + [c] + b;
      assert (a + [c] + b)[0] == a[0] && a[0] !in seps;
      assert [a[0]] + a[1..] == a;
    } else {
      assert (a + [c] + b)[1..] == b;
    }
  }

  /** `s.split(sep)` for a separator of one or more characters (left to right, non-overlapping). */
  function SplitStr(s: string, sep: string): (r: seq<string>)
    requires sep != []
    ensures |r| >= 1
    decreases |s|
  {
    if |s| < |sep| then [s]
    else if sep <= s then [""] + SplitStr(s[|sep|..], sep)
    else
      var rest := SplitStr(s[1..], sep);
      [[s[0]] + rest[0]] + rest[1..]
  }

  lemma {:induction false} SplitStrJoin(s: string, sep: string)
    requires sep != []
    ensures JoinWith(SplitStr(s, sep), sep) == s
    decreases |s|
  {
    if |s| < |sep| {
    } else if sep <= s {
      var tail := s[|sep|..];
      var rest := SplitStr(tail, sep);
      SplitStrJoin(tail, sep);
      assert SplitStr(s, sep) == [""] + rest;
      JoinCons("", rest, sep);
      assert s == sep + tail;
    } else {
      SplitStrJoin(s[1..], sep);
      JoinPrepend(s[0], SplitStr(s[1..], sep), sep);
      assert s == [s[0]] + s[1..];
    }
  }

  /** `s.split(c, 1)` when `c` occurs: the parts before and after its first occurrence. */
  function SplitFirst(s: string, c: char): (r: Option<(string, string)>)
    ensures r.None? <==> c !in s
    ensures r.Some? ==> r.value.0 + [c] + r.value.1 == s && c !in r.value.0
  {
    if s == [] then None
    else if s[0] == c then Some(([], s[1..]))
    else match SplitFirst(s[1..], c)
      case None => None
      case Some((a, b)) => Some(([s[0]] + a, b))
  }

  /** The split point of `SplitFirst` is the first occurrence of `c`. */
  lemma {:induction false} SplitFirstUnique(s: string, c: char, a: string, b: string)
    requires s == a + [c] + b && c !in a
    ensures SplitFirst(s, c) == Some((a, b))
    decreases |a|
  {
    if a != [] {
      assert s[1..] == a[1..] + [c] + b;
      SplitFirstUnique(s[1..], c, a[1..], b);
      assert [s[0]] + a[1..] == a;
    } else {
      assert s[1..] == b;
    }
  }

  // ---------------------------------------------------------------------
  // Substrings

  /** Python's `p in s` on strings. */
  predicate Contains(s: string, p: string)
    decreases |s|
  {
    p <= s || (s != [] && Contains(s[1..], p))
  }

  lemma {:induction false} ContainsAt(s: string, p: string, i: nat)
    requires i <= |s| && p <= s[i..]
    ensures Contains(s, p)
    decreases i
  {
    if i > 0 {
      assert s[1..][i - 1..] == s[i..];
      ContainsAt(s[1..], p, i - 1);
    }
  }

  /** `s.endswith(c)` for one character. */
  predicate EndsWith(s: string, c: char) {
    s != [] && s[|s| - 1] == c
  }

  /** Splitting on a separator that does not occur gives the string back whole. */
  lemma {:induction false} SplitStrAbsent(s: string, sep: string)
    requires sep != [] && !Contains(s, sep)
    ensures SplitStr(s, sep) == [s]
    decreases |s|
  {
    if |s| >= |sep| {
      SplitStrAbsent(s[1..], sep);
      assert [s[0]] + s[1..] == s;
    }
  }

  /** A string shorter than `p` cannot contain it. */
  lemma {:induction false} ShortNotContains(s: string, p: string)
    requires |s| < |p|
    ensures !Contains(s, p)
    decreases |s|
  {
    if |s| != 0 {
      ShortNotContains(s[1..], p);
    }
  }

  /** The first piece of `s.split(sep)` is a prefix of `s`. */
  lemma {:induction false} SplitStrHead(s: string, sep: string)
    requires sep != []
    ensures SplitStr(s, sep)[0] <= s
    decreases |s|
  {
    if |s| >= |sep| && !(sep <= s) {
      SplitStrHead(s[1..], sep);
      assert s == [s[0]] + s[1..];
    }
  }

  /** No piece of `s.split(sep)` contains `sep`: the string is cut at every occurrence. */
  lemma {:induction false} SplitStrPieces(s: string, sep: string)
    requires sep != []
    ensures forall k :: 0 <= k < |SplitStr(s, sep)| ==> !Contains(SplitStr(s, sep)[k], sep)
    decreases |s|
  {
    var r := SplitStr(s, sep);
    if |s| < |sep| {
      ShortNotContains(s, sep);
    } else if sep <= s {
      var rest := SplitStr(s[|sep|..], sep);
      SplitStrPieces(s[|sep|..], sep);
      assert r == [""] + rest;
      ShortNotContains("", sep);
    } else {
      var rest := SplitStr(s[1..], sep);
      SplitStrPieces(s[1..], sep);
      SplitStrHead(s[1..], sep);
      var head := [s[0]] + rest[0];
      assert r == [head] + rest[1..];
      assert head <= s by {
        assert s == [s[0]] + s[1..];
      }
      assert !(sep <= head);
      assert head[1..] == rest[0];
      assert !Contains(head, sep);
    }
  }

  // ---------------------------------------------------------------------
  // int(s) and str(n)

  predicate IsDigit(c: char) {
    '0' <= c <= '9'
  }

  /**
   * Digits with single underscores between them, as `int()` accepts in base 10.
   */
  predicate DigitRun(s: string) {
    && s != []
    && IsDigit(s[0]) && IsDigit(s[|s| - 1])
    && forall i :: 0 <= i < |s| ==> IsDigit(s[i]) || (s[i] == '_' && 0 < i && IsDigit(s[i - 1]))
  }

  function DigitValue(c: char): nat {
    if IsDigit(c) then c as int - '0' as int else 0
  }

  /** The value of a digit run, underscores ignored. */
  function DigitsValue(s: string): nat
    decreases |s|
  {
    if s == [] then 0
    else if s[|s| - 1] == '_' then DigitsValue(s[..|s| - 1])
    else DigitsValue(s[..|s| - 1]) * 10 + DigitValue(s[|s| - 1])
  }

  /** Python's `int(s)` on a string already stripped: optional sign, then a digit run. */
  function ParseInt(s: string): Option<int> {
    if s != [] && (s[0] == '+' || s[0] == '-') then
      var v: int := DigitsValue(s[1..]);
      if DigitRun(s[1..]) then Some(if s[0] == '-' then -v else v) else None
    else if DigitRun(s) then Some(DigitsValue(s)) else None
  }

  function DigitChar(d: nat): (c: char)
    requires d < 10
    ensures IsDigit(c) && DigitValue(c) == d
  {
    ('0' as int + d) as char
  }

  /** Decimal digits of a natural number, without leading zeros. */
  function NatToString(n: nat): (r: string)
    ensures r != [] && forall i :: 0 <= i < |r| ==> IsDigit(r[i])
    decreases n
  {
    if n < 10 then [DigitChar(n)] else NatToString(n / 10) + [DigitChar(n % 10)]
  }

  /** Python's `str(n)` for an int. */
  function IntToString(n: int): string {
    if n < 0 then "-" + NatToString(-n) else NatToString(n)
  }

  lemma {:induction false} NatToStringValue(n: nat)
    ensures DigitsValue(NatToString(n)) == n
    decreases n
  {
    if n >= 10 {
      NatToStringValue(n / 10);
      var s := NatToString(n);
      assert s[..|s| - 1] == NatToString(n / 10);
    }
  }

  /** A non-empty string of digits alone is a digit run. */
  lemma AllDigitsRun(d: string)
    requires d != [] && forall i :: 0 <= i < |d| ==> IsDigit(d[i])
    ensures DigitRun(d)
  {
  }

  /** `int(d)` of an unsigned digit run is its value. */
  lemma ParseIntUnsigned(d: string)
    requires DigitRun(d)
    ensures ParseInt(d) == Some(DigitsValue(d))
  {
    assert IsDigit(d[0]);
  }

  /** `int("-" + d)` of a digit run is its negated value. */
  lemma ParseIntNegated(d: string)
    requires DigitRun(d)
    ensures var v: int := DigitsValue(d); ParseInt("-" + d) == Some(-v)
  {
    assert ("-" + d)[1..] == d;
  }

  /** `int(str(n)) == n` */
  lemma ParseIntToString(n: int)
    ensures ParseInt(IntToString(n)) == Some(n)
  {
    var m: nat := if n < 0 then -n else n;
    var d := NatToString(m);
    NatToStringValue(m);
    AllDigitsRun(d);
    if n < 0 {
      ParseIntNegated(d);
    } else {
      ParseIntUnsigned(d);
    }
  }
}
