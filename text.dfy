/** The handful of Python `str` operations the scripts rely on, over `seq<char>`. */
module Text {
  import opened Wrappers

  /** Python's `str.isspace()`, which is also the class `\s` matches in a `str` pattern. */
  predicate IsSpace(c: char) {
    var n := c as int;
    (9 <= n <= 13) || (28 <= n <= 32) || n == 0x85 || n == 0xA0 || n == 0x1680
    || (0x2000 <= n <= 0x200A) || n == 0x2028 || n == 0x2029 || n == 0x202F
    || n == 0x205F || n == 0x3000
  }

  predicate IsDigit(c: char) {
    '0' <= c <= '9'
  }

  predicate AllDigits(s: string) {
    forall i :: 0 <= i < |s| ==> IsDigit(s[i])
  }

  predicate NoSpace(s: string) {
    forall i :: 0 <= i < |s| ==> !IsSpace(s[i])
  }

  /** `s.startswith(p)` */
  predicate StartsWith(s: string, p: string) {
    |p| <= |s| && s[..|p|] == p
  }

  /** `s.endswith(p)` */
  predicate EndsWith(s: string, p: string) {
    |p| <= |s| && s[|s| - |p|..] == p
  }

  /** `t in s` for strings: `t` occurs in `s` as a contiguous substring. */
  predicate Contains(s: string, t: string)
    decreases |s|
  {
    StartsWith(s, t) || (|s| > 0 && Contains(s[1..], t))
  }

  /** Index of the first occurrence of `c` in `s`. */
  function IndexOf(s: string, c: char): (r: Option<nat>)
    ensures r.None? ==> c !in s
    ensures r.Some? ==> r.value < |s| && s[r.value] == c && c !in s[..r.value]
    decreases |s|
  {
    if s == [] then None
    else if s[0] == c then Some(0)
    else match IndexOf(s[1..], c)
      case None => None
      case Some(i) => assert s[..i + 1] == [s[0]] + s[1..][..i]; Some(i + 1)
  }

  /** `s.split(c)` with an explicit one-character separator: never merges separators,
      and `"".split(c) == [""]`. */
  function Split(s: string, c: char): (r: seq<string>)
    ensures |r| >= 1
    ensures forall i :: 0 <= i < |r| ==> c !in r[i]
    decreases |s|
  {
    match IndexOf(s, c)
      case None => [s]
      case Some(i) => [s[..i]] + Split(s[i + 1..], c)
  }

  /** `sep.join(parts)` */
  function Join(parts: seq<string>, sep: string): string
    decreases |parts|
  {
    if |parts| == 0 then ""
    else if |parts| == 1 then parts[0]
    else parts[0] + sep + Join(parts[1..], sep)
  }

  lemma {:induction false} JoinSnoc(parts: seq<string>, x: string, sep: string)
    requires |parts| >= 1
    ensures Join(parts + [x], sep) == Join(parts, sep) + sep + x
    decreases |parts|
  {
    if |parts| == 1 {
      assert parts + [x] == [parts[0], x];
    } else {
      assert (parts + [x])[1..] == parts[1..] + [x];
      JoinSnoc(parts[1..], x, sep);
    }
  }

  /** Splitting on `c` and joining with `c` gives the text back. */
  lemma {:induction false} JoinSplit(s: string, c: char)
    ensures Join(Split(s, c), [c]) == s
    decreases |s|
  {
    match IndexOf(s, c)
      case None =>
      case Some(i) =>
        var rest := s[i + 1..];
        assert Split(s, c) == [s[..i]] + Split(rest, c);
        JoinSplit(rest, c);
        JoinCons(s[..i], Split(rest, c), [c]);
        assert s == s[..i] + [c] + rest;
  }

  /** Joining pieces free of `c` with `c` and splitting on `c` gives the pieces back. */
  lemma {:induction false} SplitJoin(parts: seq<string>, c: char)
    requires |parts| >= 1
    requires forall i :: 0 <= i < |parts| ==> c !in parts[i]
    ensures Split(Join(parts, [c]), c) == parts
    decreases |parts|
  {
    var s := Join(parts, [c]);
    if |parts| == 1 {
      assert IndexOf(s, c).None?;
    } else {
      var rest := Join(parts[1..], [c]);
      assert s == parts[0] + [c] + rest;
      var p := parts[0];
      assert s[..|p|] == p && s[|p|] == c;
      assert s[..|p|] == p;
      IndexOfAt(s, c, |p|);
      assert s[|p| + 1..] == rest;
      SplitJoin(parts[1..], c);
    }
  }

  lemma {:induction false} IndexOfAt(s: string, c: char, i: nat)
    requires i < |s| && s[i] == c && c !in s[..i]
    ensures IndexOf(s, c) == Some(i)
    decreases i
  {
    if i > 0 {
      assert s[0] in s[..i];
      assert s[1..][..i - 1] == s[1..i];
      assert forall k :: 1 <= k < i ==> s[k] in s[..i];
      IndexOfAt(s[1..], c, i - 1);
    }
  }

  /** The first element of a split is the text before the first separator. */
  lemma SplitHead(s: string, c: char)
    ensures c !in s ==> Split(s, c)[0] == s
    ensures c in s ==> Split(s, c)[0] == s[..IndexOf(s, c).value]
  {
  }

  lemma {:induction false} SplitLastEmpty(s: string, c: char)
    requires s != []
    ensures Split(s, c)[|Split(s, c)| - 1] == [] <==> s[|s| - 1] == c
    decreases |s|
  {
    match IndexOf(s, c)
      case None =>
        assert s[|s| - 1] in s;
      case Some(i) =>
        var t := s[i + 1..];
        if t == [] {
          assert i == |s| - 1;
        } else {
          SplitLastEmpty(t, c);
          assert t[|t| - 1] == s[|s| - 1];
        }
  }

  /** `s.splitlines()`, restricted to `"\n"` line breaks: no trailing empty line, and the
      empty text has no lines at all. */
  function SplitLines(s: string): (r: seq<string>)
    ensures s == [] <==> r == []
    ensures forall i :: 0 <= i < |r| ==> '\n' !in r[i]
  {
    if s == [] then []
    else
      var p := Split(s, '\n');
      if p[|p| - 1] == [] then
        assert |p| >= 2 by { if |p| == 1 { JoinSplit(s, '\n'); } }
        p[..|p| - 1]
      else p
  }

  /** The lines joined with `"\n"` are the text, less at most one final line break. */
  lemma SplitLinesJoin(s: string)
    requires s != []
    ensures s == Join(SplitLines(s), "\n") + (if s[|s| - 1] == '\n' then "\n" else "")
  {
    var p := Split(s, '\n');
    JoinSplit(s, '\n');
    SplitLastEmpty(s, '\n');
    if p[|p| - 1] == [] {
      var q := SplitLines(s);
      assert p == q + [[]];
      JoinSnoc(q, [], "\n");
    }
  }

  /** Index of the first whitespace character at or after `j`, or `|s|`: the end of the
      non-whitespace run that starts at `j`. */
  function RunEnd(s: string, j: nat): (e: nat)
    requires j <= |s|
    ensures j <= e <= |s|
    ensures forall k :: j <= k < e ==> !IsSpace(s[k])
    ensures e < |s| ==> IsSpace(s[e])
    decreases |s| - j
  {
    if j == |s| || IsSpace(s[j]) then j else RunEnd(s, j + 1)
  }

  /** `s.split()` with no argument: the maximal whitespace-free runs, in order. */
  function SplitWhitespace(s: string): (r: seq<string>)
    ensures forall i :: 0 <= i < |r| ==> r[i] != [] && NoSpace(r[i])
    decreases |s|
  {
    if s == [] then []
    else if IsSpace(s[0]) then SplitWhitespace(s[1..])
    else
      var e := RunEnd(s, 0);
      [s[..e]] + SplitWhitespace(s[e..])
  }

  /** Tokens separated by single spaces are split back into themselves. */
  lemma {:induction false} SplitWhitespaceJoin(tokens: seq<string>)
    requires forall i :: 0 <= i < |tokens| ==> tokens[i] != [] && NoSpace(tokens[i])
    ensures SplitWhitespace(Join(tokens, " ")) == tokens
    decreases |tokens|
  {
    if |tokens| == 1 {
      var s := tokens[0];
      assert RunEnd(s, 0) == |s| by { RunEndNoSpace(s, 0); }
      assert s[..|s|] == s && s[|s|..] == [];
    } else if |tokens| > 1 {
      var t := tokens[0];
      var rest := Join(tokens[1..], " ");
      var s := t + " " + rest;
      assert s[..|t|] == t;
      assert RunEnd(s, 0) == |t| by { RunEndPrefix(s, |t|); }
      assert s[|t|..] == " " + rest;
      assert (" " + rest)[1..] == rest;
      SplitWhitespaceJoin(tokens[1..]);
    }
  }

  lemma {:induction false} RunEndNoSpace(s: string, j: nat)
    requires j <= |s| && NoSpace(s)
    ensures RunEnd(s, j) == |s|
    decreases |s| - j
  {
    if j < |s| { RunEndNoSpace(s, j + 1); }
  }

  lemma {:induction false} RunEndPrefix(s: string, e: nat)
    requires e < |s| && IsSpace(s[e]) && forall k :: 0 <= k < e ==> !IsSpace(s[k])
    ensures RunEnd(s, 0) == e
  {
  }

  /** `s.replace(pattern, replacement)`: every non-overlapping occurrence of `pattern`, scanning left to right. */
  function ReplaceAll(s: string, pattern: string, replacement: string): string
    requires pattern != []
    decreases |s|
  {
    if StartsWith(s, pattern) then replacement + ReplaceAll(s[|pattern|..], pattern, replacement)
    else if s == [] then []
    else [s[0]] + ReplaceAll(s[1..], pattern, replacement)
  }

  /** Text without any occurrence of `pattern` is left as it is. */
  lemma {:induction false} ReplaceAbsent(s: string, pattern: string, replacement: string)
    requires pattern != [] && !Contains(s, pattern)
    ensures ReplaceAll(s, pattern, replacement) == s
    decreases |s|
  {
    if s != [] {
      ReplaceAbsent(s[1..], pattern, replacement);
    }
  }

  /** Text before which no `c` occurs passes through a one-character replacement unchanged. */
  lemma {:induction false} ReplaceCharPrefixFree(a: string, b: string, c: char, replacement: string)
    requires c !in a
    ensures ReplaceAll(a + b, [c], replacement) == a + ReplaceAll(b, [c], replacement)
    decreases |a|
  {
    if a == [] {
      assert a + b == b;
    } else {
      var s := a + b;
      assert s[0] == a[0] && s[1..] == a[1..] + b;
      assert s[..1] != [c] by { assert s[..1][0] == a[0]; }
      assert ReplaceAll(s, [c], replacement) == [s[0]] + ReplaceAll(s[1..], [c], replacement);
      ReplaceCharPrefixFree(a[1..], b, c, replacement);
      assert [a[0]] + (a[1..] + ReplaceAll(b, [c], replacement)) == a + ReplaceAll(b, [c], replacement) by {
        assert [a[0]] + a[1..] == a;
      }
    }
  }

  lemma JoinCons(x: string, q: seq<string>, sep: string)
    requires |q| >= 1
    ensures Join([x] + q, sep) == x + sep + Join(q, sep)
  {
    assert ([x] + q)[1..] == q;
  }

  /** Replacing a single character is splitting on it and joining with the replacement. */
  lemma {:induction false} ReplaceCharIsJoinSplit(s: string, c: char, replacement: string)
    ensures ReplaceAll(s, [c], replacement) == Join(Split(s, c), replacement)
    decreases |s|
  {
    var idx := IndexOf(s, c);
    if idx.None? {
      assert Split(s, c) == [s];
      ReplaceCharPrefixFree(s, [], c, replacement);
      assert s + [] == s;
      assert ReplaceAll([], [c], replacement) == [];
    } else {
      var i := idx.value;
      var rest := s[i + 1..];
      var q := Split(rest, c);
      assert Split(s, c) == [s[..i]] + q;
      assert s == s[..i] + ([c] + rest);
      ReplaceCharPrefixFree(s[..i], [c] + rest, c, replacement);
      ReplaceCharHead(rest, c, replacement);
      ReplaceCharIsJoinSplit(rest, c, replacement);
      JoinCons(s[..i], q, replacement);
    }
  }

  lemma ReplaceCharHead(rest: string, c: char, replacement: string)
    ensures ReplaceAll([c] + rest, [c], replacement) == replacement + ReplaceAll(rest, [c], replacement)
  {
    assert StartsWith([c] + rest, [c]) && ([c] + rest)[1..] == rest;
  }

  /** `s.lstrip(chars)`: drop leading characters that belong to the SET `chars` (this is
      not removal of `chars` as a prefix). */
  function LStripChars(s: string, chars: set<char>): string
    decreases |s|
  {
    if s != [] && s[0] in chars then LStripChars(s[1..], chars) else s
  }

  /** The strip removes a prefix made only of characters of `chars`, and exactly as much: the
      result does not start with one of them. */
  lemma {:induction false} LStripCharsSpec(s: string, chars: set<char>)
    ensures var r := LStripChars(s, chars);
      |r| <= |s| && r == s[|s| - |r|..]
      && (forall i :: 0 <= i < |s| - |r| ==> s[i] in chars)
      && (r == [] || r[0] !in chars)
    decreases |s|
  {
    if s != [] && s[0] in chars {
      LStripCharsSpec(s[1..], chars);
    }
  }

  function DigitChar(d: nat): (c: char)
    requires d < 10
    ensures IsDigit(c)
  {
    ['0', '1', '2', '3', '4', '5', '6', '7', '8', '9'][d]
  }

  function DigitValue(c: char): (d: nat)
    requires IsDigit(c)
    ensures d < 10 && DigitChar(d) == c
  {
    (c as int) - ('0' as int)
  }

  /** `str(n)` for a non-negative integer: decimal, no leading zero. */
  function NatToString(n: nat): (s: string)
    ensures s != [] && AllDigits(s)
    ensures s[0] == '0' ==> n == 0 && s == "0"
    decreases n
  {
    if n < 10 then [DigitChar(n)] else NatToString(n / 10) + [DigitChar(n % 10)]
  }

  /** The value of a string of decimal digits (the empty string is 0). */
  function ParseNat(s: string): nat
    requires AllDigits(s)
    decreases |s|
  {
    if s == [] then 0 else 10 * ParseNat(s[..|s| - 1]) + DigitValue(s[|s| - 1])
  }

  lemma {:induction false} ParseNatToString(n: nat)
    ensures ParseNat(NatToString(n)) == n
    decreases n
  {
    if n >= 10 {
      var s := NatToString(n);
      assert s[..|s| - 1] == NatToString(n / 10);
      ParseNatToString(n / 10);
    }
  }

  lemma {:induction false} NatToStringLength(n: nat)
    ensures n < 10 ==> |NatToString(n)| == 1
    ensures n < 100 ==> |NatToString(n)| <= 2
    ensures n < 1000 ==> |NatToString(n)| <= 3
  {
    if n >= 10 { NatToStringLength(n / 10); }
  }

  /** `str(i)` for any integer. */
  function IntToString(i: int): (s: string)
    ensures s != []
    ensures i < 0 <==> s[0] == '-'
  {
    if i < 0 then "-" + NatToString(-i) else NatToString(i)
  }
}
