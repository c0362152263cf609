/** The parts of java.lang.String and java.util.regex.Pattern that the
    command-line argument parser relies on, over strings as seq<char>. */
module JavaStrings {

  /** `s.startsWith(prefix)` */
  predicate StartsWith(s: string, prefix: string) {
    |prefix| <= |s| && s[..|prefix|] == prefix
  }

  /** `String.trim` removes every leading and trailing char up to U+0020. */
  predicate IsTrimmable(ch: char) {
    ch <= ' '
  }

  predicate IsBlank(s: string) {
    forall i :: 0 <= i < |s| ==> IsTrimmable(s[i])
  }

  predicate BlankBetween(s: string, lo: nat, hi: nat)
    requires lo <= hi <= |s|
  {
    forall i :: lo <= i < hi ==> IsTrimmable(s[i])
  }

  /** The first index at or after `i` that `trim` keeps (|s| if none). */
  function TrimStartIndex(s: string, i: nat): (j: nat)
    requires i <= |s|
    ensures i <= j <= |s|
    ensures BlankBetween(s, i, j)
    ensures j < |s| ==> !IsTrimmable(s[j])
    decreases |s| - i
  {
    if i < |s| && IsTrimmable(s[i]) then TrimStartIndex(s, i + 1) else i
  }

  /** The end of what `trim` keeps of s[lo..hi], cutting blanks from the right. */
  function TrimEndIndex(s: string, lo: nat, hi: nat): (j: nat)
    requires lo <= hi <= |s|
    ensures lo <= j <= hi
    ensures BlankBetween(s, j, hi)
    ensures lo < j ==> !IsTrimmable(s[j - 1])
    decreases hi - lo
  {
    if lo < hi && IsTrimmable(s[hi - 1]) then TrimEndIndex(s, lo, hi - 1) else hi
  }

  /** `s.trim()`: what is left once the blank characters at both ends are
      cut off; nothing is left exactly when the string is blank. */
  function Trim(s: string): (r: string)
    ensures r != [] ==> !IsTrimmable(r[0]) && !IsTrimmable(r[|r| - 1])
    ensures r == [] <==> IsBlank(s)
  {
    var lo := TrimStartIndex(s, 0);
    var hi := TrimEndIndex(s, lo, |s|);
    assert lo == hi ==> lo == |s|;
    s[lo..hi]
  }

  /** What `trim` keeps is an infix of `s` whose surroundings are blank. */
  lemma TrimIsInfix(s: string)
    ensures exists lo, hi :: 0 <= lo <= hi <= |s| && Trim(s) == s[lo..hi] && BlankBetween(s, 0, lo) && BlankBetween(s, hi, |s|)
  {
    var lo := TrimStartIndex(s, 0);
    var hi := TrimEndIndex(s, lo, |s|);
    assert Trim(s) == s[lo..hi];
  }

  /** `s.indexOf(ch)`, with "absent" reported as |s| rather than -1. */
  function IndexOf(s: string, ch: char): (k: nat)
    ensures k <= |s|
    ensures k < |s| <==> ch in s
    ensures k < |s| ==> s[k] == ch
    ensures ch !in s[..k]
  {
    if s == [] then 0
    else if s[0] == ch then 0
    else
      var k := 1 + IndexOf(s[1..], ch);
      assert s[..k] == [s[0]] + s[1..][..k - 1];
      k
  }

  /** The first occurrence is the one with no occurrence before it. */
  lemma IndexOfAt(s: string, ch: char, k: nat)
    requires k < |s| && s[k] == ch && ch !in s[..k]
    ensures IndexOf(s, ch) == k
  {
  }

  /** `s.replace(oldChar, newChar)` */
  function Replace(s: string, oldChar: char, newChar: char): (r: string)
    ensures |r| == |s|
    ensures forall i :: 0 <= i < |s| ==> r[i] == if s[i] == oldChar then newChar else s[i]
  {
    if s == [] then []
    else [if s[0] == oldChar then newChar else s[0]] + Replace(s[1..], oldChar, newChar)
  }

  /** Every field of `s` between occurrences of `d`, empty fields included:
      one more field than there are delimiters. */
  function SplitAll(s: string, d: char): (parts: seq<string>)
    ensures |parts| >= 1
  {
    if s == [] then [[]]
    else
      var rest := SplitAll(s[1..], d);
      if s[0] == d then [[]] + rest
      else [[s[0]] + rest[0]] + rest[1..]
  }

  /** No field of `SplitAll` holds the delimiter. */
  lemma {:induction false} SplitAllFieldsFree(s: string, d: char)
    ensures forall i :: 0 <= i < |SplitAll(s, d)| ==> d !in SplitAll(s, d)[i]
  {
    if s != [] {
      SplitAllFieldsFree(s[1..], d);
    }
  }

  /** `String.join` with a one-character delimiter. */
  function Join(parts: seq<string>, d: char): (r: string)
    requires |parts| >= 1
  {
    if |parts| == 1 then parts[0] else parts[0] + [d] + Join(parts[1..], d)
  }

  /** Drops the empty strings at the end of a list of fields. */
  function DropTrailingEmpty(parts: seq<string>): (r: seq<string>)
    ensures |r| <= |parts| && r == parts[..|r|]
    ensures r != [] ==> r[|r| - 1] != []
    ensures forall i :: |r| <= i < |parts| ==> parts[i] == []
  {
    if |parts| > 0 && parts[|parts| - 1] == [] then DropTrailingEmpty(parts[..|parts| - 1])
    else parts
  }

  /** Drops the occurrences of `d` at the end of `s`. */
  function StripTrailing(s: string, d: char): (r: string)
    ensures |r| <= |s| && r == s[..|r|]
    ensures r != [] ==> r[|r| - 1] != d
    ensures forall i :: |r| <= i < |s| ==> s[i] == d
  {
    if |s| > 0 && s[|s| - 1] == d then StripTrailing(s[..|s| - 1], d) else s
  }

  /** `Pattern.compile(d).split(s)` for a literal one-character pattern, that is
      `split` with limit 0: when `d` does not occur the result is `[s]` (so the
      empty string gives one empty field); otherwise the fields between the
      delimiters, with the trailing empty fields removed. */
  function PatternSplit(s: string, d: char): (parts: seq<string>)
    ensures forall i :: 0 <= i < |parts| ==> d !in parts[i]
    ensures |s| > 0 && s[0] != d ==> |parts| >= 1 && parts[0] == s[..IndexOf(s, d)]
  {
    if d !in s then [s]
    else
      SplitAllFieldsFree(s, d);
      PatternSplitHead(s, d);
      DropTrailingEmpty(SplitAll(s, d))
  }

  lemma PatternSplitHead(s: string, d: char)
    requires d in s
    ensures s[0] != d ==> |DropTrailingEmpty(SplitAll(s, d))| >= 1
    ensures s[0] != d ==> DropTrailingEmpty(SplitAll(s, d))[0] == s[..IndexOf(s, d)]
  {
    if s[0] != d {
      var k := IndexOf(s, d);
      assert s == s[..k] + [d] + s[k + 1..];
      SplitAllConcat(s[..k], s[k + 1..], d);
      SplitAllNoDelimiter(s[..k], d);
      DropTrailingEmptyCons(s[..k], SplitAll(s[k + 1..], d));
    }
  }

  lemma {:induction false} SplitAllNoDelimiter(a: string, d: char)
    requires d !in a
    ensures SplitAll(a, d) == [a]
  {
    if a != [] {
      SplitAllNoDelimiter(a[1..], d);
      assert [a[0]] + a[1..] == a;
    }
  }

  /** `SplitAll` on a string that starts with `ch`. */
  lemma SplitAllCons(ch: char, t: string, d: char)
    ensures SplitAll([ch] + t, d) ==
      if ch == d then [[]] + SplitAll(t, d) else [[ch] + SplitAll(t, d)[0]] + SplitAll(t, d)[1..]
  {
    assert ([ch] + t)[1..] == t;
  }

  lemma ConsAppend<T>(p: T, x: seq<T>, y: seq<T>)
    ensures [p] + (x + y) == ([p] + x) + y
  {
  }

  lemma TailAppend<T>(x: seq<T>, y: seq<T>)
    requires |x| >= 1
    ensures (x + y)[0] == x[0] && (x + y)[1..] == x[1..] + y
  {
  }

  /** Putting the same character in front of two strings keeps a common
      tail of their fields. */
  lemma SplitAllConsPreserved(ch: char, u: string, v: string, y: seq<string>, d: char)
    requires SplitAll(u, d) == SplitAll(v, d) + y
    ensures SplitAll([ch] + u, d) == SplitAll([ch] + v, d) + y
  {
    SplitAllCons(ch, u, d);
    SplitAllCons(ch, v, d);
    var x := SplitAll(v, d);
    if ch == d {
      ConsAppend([], x, y);
    } else {
      TailAppend(x, y);
      ConsAppend([ch] + x[0], x[1..], y);
    }
  }

  /** Splitting `a`, a delimiter, then `b` gives the fields of `a` followed
      by those of `b`. */
  lemma {:induction false} SplitAllConcat(a: string, b: string, d: char)
    ensures SplitAll(a + [d] + b, d) == SplitAll(a, d) + SplitAll(b, d)
  {
    if a == [] {
      SplitAllCons(d, b, d);
      assert a + [d] + b == [d] + b;
      assert SplitAll(a, d) == [[]];
    } else {
      var t := a[1..];
      SplitAllConcat(t, b, d);
      SplitAllConsPreserved(a[0], t + [d] + b, t, SplitAll(b, d), d);
      assert a + [d] + b == [a[0]] + (t + [d] + b);
      assert a == [a[0]] + t;
    }
  }

  lemma {:induction false} SplitAllAppendDelimiter(a: string, d: char)
    ensures SplitAll(a + [d], d) == SplitAll(a, d) + [[]]
  {
    if a == [] {
      assert (a + [d])[1..] == [];
    } else {
      assert (a + [d])[1..] == a[1..] + [d];
      SplitAllAppendDelimiter(a[1..], d);
    }
  }

  lemma {:induction false} SplitAllLastNonEmpty(t: string, d: char)
    requires t != [] && t[|t| - 1] != d
    ensures SplitAll(t, d)[|SplitAll(t, d)| - 1] != []
  {
    if |t| > 1 {
      SplitAllLastNonEmpty(t[1..], d);
    }
  }

  lemma {:induction false} DropTrailingEmptyCons(p: string, rest: seq<string>)
    requires p != []
    ensures DropTrailingEmpty([p] + rest) == [p] + DropTrailingEmpty(rest)
    decreases |rest|
  {
    if |rest| > 0 && rest[|rest| - 1] == [] {
      assert ([p] + rest)[..|rest|] == [p] + rest[..|rest| - 1];
      DropTrailingEmptyCons(p, rest[..|rest| - 1]);
    }
  }

  lemma {:induction false} DropTrailingEmptyAppend(x: seq<string>, y: seq<string>)
    requires DropTrailingEmpty(y) != []
    ensures DropTrailingEmpty(x + y) == x + DropTrailingEmpty(y)
    decreases |y|
  {
    if y[|y| - 1] == [] {
      assert (x + y)[..|x + y| - 1] == x + y[..|y| - 1];
      DropTrailingEmptyAppend(x, y[..|y| - 1]);
    }
  }

  lemma {:induction false} DropTrailingEmptyStrip(s: string, d: char)
    ensures DropTrailingEmpty(SplitAll(s, d)) == DropTrailingEmpty(SplitAll(StripTrailing(s, d), d))
    decreases |s|
  {
    if |s| > 0 && s[|s| - 1] == d {
      var s' := s[..|s| - 1];
      assert s == s' + [d];
      SplitAllAppendDelimiter(s', d);
      var x := SplitAll(s', d);
      assert (x + [[]])[..|x|] == x;
      DropTrailingEmptyStrip(s', d);
    }
  }

  /** Splitting then joining gives the string back. */
  lemma {:induction false} SplitAllJoin(s: string, d: char)
    ensures Join(SplitAll(s, d), d) == s
  {
    if s != [] {
      SplitAllJoin(s[1..], d);
      var rest := SplitAll(s[1..], d);
      if s[0] == d {
        assert ([[]] + rest)[1..] == rest;
      } else if |rest| > 1 {
        assert ([[s[0]] + rest[0]] + rest[1..])[1..] == rest[1..];
      }
      assert s == [s[0]] + s[1..];
    }
  }

  /** Joining fields that hold no delimiter then splitting gives the fields back. */
  lemma {:induction false} JoinSplitAll(parts: seq<string>, d: char)
    requires |parts| >= 1
    requires forall i :: 0 <= i < |parts| ==> d !in parts[i]
    ensures SplitAll(Join(parts, d), d) == parts
  {
    if |parts| == 1 {
      SplitAllNoDelimiter(parts[0], d);
    } else {
      JoinSplitAll(parts[1..], d);
      SplitAllConcat(parts[0], Join(parts[1..], d), d);
      SplitAllNoDelimiter(parts[0], d);
      assert [parts[0]] + parts[1..] == parts;
    }
  }

  /** A string holding a delimiter has at least two fields. */
  lemma SplitAllCount(t: string, d: char)
    requires d in t
    ensures |SplitAll(t, d)| >= 2
  {
    SplitAllJoin(t, d);
  }

  /** `Pattern.split` loses only the trailing delimiters: the fields joined
      back give the string without them, and no field at all is left exactly
      when the string is made of delimiters only. */
  lemma PatternSplitJoin(s: string, d: char)
    ensures PatternSplit(s, d) == [] <==> s != [] && forall i :: 0 <= i < |s| ==> s[i] == d
    ensures PatternSplit(s, d) != [] ==> Join(PatternSplit(s, d), d) == StripTrailing(s, d)
  {
    if d !in s {
      assert s != [] ==> s[|s| - 1] in s;
      assert s != [] ==> s[0] in s;
    } else {
      var t := StripTrailing(s, d);
      DropTrailingEmptyStrip(s, d);
      if t == [] {
        assert DropTrailingEmpty(SplitAll(t, d)) == [];
      } else {
        SplitAllLastNonEmpty(t, d);
        SplitAllJoin(t, d);
        assert s[|t| - 1] != d;
      }
    }
  }

  /** How `Pattern.split` cuts a string whose first character is not the
      delimiter but that holds one, at index k: the field before it, then
      nothing, one field or more, according to what follows k once the
      trailing delimiters are dropped. */
  lemma PatternSplitAtFirst(s: string, d: char)
    requires d in s && s[0] != d
    ensures var k := IndexOf(s, d); var t := StripTrailing(s[k + 1..], d);
      && (t == [] ==> PatternSplit(s, d) == [s[..k]])
      && (t != [] && d !in t ==> PatternSplit(s, d) == [s[..k], t])
      && (d in t ==> |PatternSplit(s, d)| >= 3)
  {
    var k := IndexOf(s, d);
    var rest := s[k + 1..];
    var t := StripTrailing(rest, d);
    assert s == s[..k] + [d] + rest;
    SplitAllConcat(s[..k], rest, d);
    SplitAllNoDelimiter(s[..k], d);
    DropTrailingEmptyCons(s[..k], SplitAll(rest, d));
    DropTrailingEmptyStrip(rest, d);
    if t == [] {
      assert DropTrailingEmpty(SplitAll(t, d)) == [];
    } else {
      SplitAllLastNonEmpty(t, d);
      assert DropTrailingEmpty(SplitAll(t, d)) == SplitAll(t, d);
      if d !in t {
        SplitAllNoDelimiter(t, d);
      } else {
        SplitAllCount(t, d);
      }
    }
  }

  /** A delimiter added at the end of a non-empty string changes nothing. */
  lemma PatternSplitTrailingDelimiter(s: string, d: char)
    requires s != []
    ensures PatternSplit(s + [d], d) == PatternSplit(s, d)
  {
    SplitAllAppendDelimiter(s, d);
    var x := SplitAll(s, d);
    assert (x + [[]])[..|x|] == x;
    assert d in s + [d] by {
      assert (s + [d])[|s|] == d;
    }
    if d !in s {
      SplitAllNoDelimiter(s, d);
    }
  }

  /** Two delimiters in a row, with some other character after them, leave
      an empty field in the middle. */
  lemma PatternSplitEmptyField(a: string, b: string, d: char)
    requires exists i :: 0 <= i < |b| && b[i] != d
    ensures [] in PatternSplit(a + [d] + [d] + b, d)
  {
    var s := a + [d] + [d] + b;
    assert s == a + [d] + ([] + [d] + b);
    assert s[|a|] == d;
    SplitAllConcat(a, [] + [d] + b, d);
    SplitAllConcat([], b, d);
    assert [] + [d] + b == [d] + b;
    var y := SplitAll(b, d);
    assert SplitAll(s, d) == (SplitAll(a, d) + [[]]) + y;
    PatternSplitJoin(b, d);
    if d !in b {
      SplitAllNoDelimiter(b, d);
    }
    assert DropTrailingEmpty(y) != [];
    DropTrailingEmptyAppend(SplitAll(a, d) + [[]], y);
    assert PatternSplit(s, d)[|SplitAll(a, d)|] == [];
  }
}
