/**
  The handful of Python string built-ins the import-graph engine relies on:
  `str.split` and `str.join` with a one-character separator, `str()` of an
  integer, and the literal pattern search done by `re.findall`.
 */
module Strings {

  /** Number of occurrences of `c` in `s`. */
  function Count(s: string, c: char): nat
  {
    if s == [] then 0 else (if s[0] == c then 1 else 0) + Count(s[1..], c)
  }

  /** Position of the first `d` in `s`, or `|s|` when there is none. */
  function IndexOf(s: string, d: char): (i: nat)
    ensures i <= |s| && (i < |s| ==> s[i] == d)
    ensures forall j :: 0 <= j < i ==> s[j] != d
  {
    if s == [] then 0
    else if s[0] == d then 0
    else
      1 + IndexOf(s[1..], d)
  }

  /** `s.split(d)`: the pieces between the separators, in order; never empty. */
  function Split(s: string, d: char): (parts: seq<string>)
    ensures |parts| == Count(s, d) + 1
    ensures forall i :: 0 <= i < |parts| ==> d !in parts[i]
    decreases |s|
  {
    var i := IndexOf(s, d);
    if i == |s| then
      CountAbsent(s, d);
      [s]
    else
      CountSplit(s, i, d);
      [s[..i]] + Split(s[i + 1..], d)
  }

  /** `sep.join(parts)`. */
  function Join(sep: string, parts: seq<string>): string
  {
    if |parts| == 0 then ""
    else if |parts| == 1 then parts[0]
    else parts[0] + sep + Join(sep, parts[1..])
  }

  /** Joining one more part at the end adds a separator and that part. */
  lemma {:induction false} JoinSnoc(sep: string, parts: seq<string>, x: string)
    requires |parts| >= 1
    ensures Join(sep, parts + [x]) == Join(sep, parts) + sep + x
    decreases |parts|
  {
    if |parts| == 1 {
      assert (parts + [x])[1..] == [x];
    } else {
      assert (parts + [x])[1..] == parts[1..] + [x];
      JoinSnoc(sep, parts[1..], x);
    }
  }

  /** `s` with every `d` replaced by `c`. */
  function Replace(s: string, d: char, c: char): (r: string)
    ensures |r| == |s|
  {
    if s == [] then [] else [if s[0] == d then c else s[0]] + Replace(s[1..], d, c)
  }

  lemma {:induction false} CountAbsent(s: string, d: char)
    requires d !in s
    ensures Count(s, d) == 0
    decreases |s|
  {
    if s != [] {
      CountAbsent(s[1..], d);
    }
  }

  lemma {:induction false} CountAppend(a: string, b: string, d: char)
    ensures Count(a + b, d) == Count(a, d) + Count(b, d)
    decreases |a|
  {
    if a == [] {
      assert a + b == b;
    } else {
      CountAppend(a[1..], b, d);
      assert (a + b)[1..] == a[1..] + b;
    }
  }

  lemma CountSplit(s: string, i: nat, d: char)
    requires i < |s| && s[i] == d && d !in s[..i]
    ensures Count(s, d) == Count(s[i + 1..], d) + 1
  {
    assert s == s[..i] + ([s[i]] + s[i + 1..]);
    CountAppend(s[..i], [s[i]] + s[i + 1..], d);
    CountAbsent(s[..i], d);
  }

  lemma {:induction false} ReplaceAppend(a: string, b: string, d: char, c: char)
    ensures Replace(a + b, d, c) == Replace(a, d, c) + Replace(b, d, c)
    decreases |a|
  {
    if a == [] {
      assert a + b == b;
    } else {
      ReplaceAppend(a[1..], b, d, c);
      assert (a + b)[1..] == a[1..] + b;
    }
  }

  lemma {:induction false} ReplaceAbsent(s: string, d: char, c: char)
    requires d !in s
    ensures Replace(s, d, c) == s
    decreases |s|
  {
    if s != [] {
      ReplaceAbsent(s[1..], d, c);
    }
  }

  /** Position by position, `Replace` keeps every character except `d`, which becomes `c`. */
  lemma {:induction false} ReplaceAt(s: string, d: char, c: char, i: nat)
    requires i < |s|
    ensures Replace(s, d, c)[i] == if s[i] == d then c else s[i]
    decreases |s|
  {
    if i > 0 {
      ReplaceAt(s[1..], d, c, i - 1);
    }
  }

  lemma JoinCons(head: string, pieces: seq<string>, sep: string)
    requires |pieces| >= 1
    ensures Join(sep, [head] + pieces) == head + sep + Join(sep, pieces)
  {
    assert ([head] + pieces)[1..] == pieces;
  }

  lemma ReplaceAround(head: string, rest: string, d: char, c: char)
    requires d !in head
    ensures Replace(head + [d] + rest, d, c) == head + [c] + Replace(rest, d, c)
  {
    assert head + [d] + rest == head + ([d] + rest);
    ReplaceAppend(head, [d] + rest, d, c);
    ReplaceAppend([d], rest, d, c);
    ReplaceAbsent(head, d, c);
    assert Replace([d], d, c) == [c];
  }

  /** Splitting on `d` and joining with `c` replaces every `d` by `c`. */
  lemma {:induction false} JoinSplit(s: string, d: char, c: char)
    ensures Join([c], Split(s, d)) == Replace(s, d, c)
    decreases |s|
  {
    var i := IndexOf(s, d);
    if i == |s| {
      ReplaceAbsent(s, d, c);
    } else {
      var head, rest := s[..i], s[i + 1..];
      JoinSplit(rest, d, c);
      JoinCons(head, Split(rest, d), [c]);
      assert s == head + [d] + rest;
      ReplaceAround(head, rest, d, c);
    }
  }

  /** Joining separator-free pieces with `d` and splitting on `d` gives the pieces back. */
  lemma {:induction false} SplitJoin(parts: seq<string>, d: char)
    requires |parts| >= 1
    requires forall i :: 0 <= i < |parts| ==> d !in parts[i]
    ensures Split(Join([d], parts), d) == parts
    decreases |parts|
  {
    var s := Join([d], parts);
    if |parts| == 1 {
      assert IndexOf(s, d) == |s|;
    } else {
      var tail := Join([d], parts[1..]);
      SplitJoin(parts[1..], d);
      assert s == parts[0] + [d] + tail;
      var i := IndexOf(s, d);
      assert s[..|parts[0]|] == parts[0];
      assert s[|parts[0]|] == d;
      assert i == |parts[0]|;
      assert s[i + 1..] == tail;
      assert parts == [parts[0]] + parts[1..];
    }
  }

  // ---------------------------------------------------------------------------
  // `str()` of integers

  predicate IsDigit(c: char)
  {
    '0' <= c <= '9'
  }

  function DigitChar(n: nat): (c: char)
    requires n < 10
    ensures IsDigit(c) && (c as int) - ('0' as int) == n
  {
    (('0' as int) + n) as char
  }

  /** `str(n)` for a non-negative integer: decimal digits, no leading zero. */
  function NatToString(n: nat): (s: string)
    ensures |s| >= 1
    ensures forall i :: 0 <= i < |s| ==> IsDigit(s[i])
    ensures s[0] == '0' <==> n == 0
    decreases n
  {
    if n < 10 then [DigitChar(n)] else NatToString(n / 10) + [DigitChar(n % 10)]
  }

  function DigitValue(c: char): nat
    requires IsDigit(c)
  {
    (c as int) - ('0' as int)
  }

  /** The value of a string of decimal digits. */
  function ParseNat(s: string): nat
    requires forall i :: 0 <= i < |s| ==> IsDigit(s[i])
  {
    if s == [] then 0 else 10 * ParseNat(s[..|s| - 1]) + DigitValue(s[|s| - 1])
  }

  lemma {:induction false} ParseNatToString(n: nat)
    ensures ParseNat(NatToString(n)) == n
    decreases n
  {
    if n >= 10 {
      ParseNatToString(n / 10);
      var s := NatToString(n);
      assert s[..|s| - 1] == NatToString(n / 10);
    }
  }

  /** `str(i)` for any integer: a minus sign in front of the digits of a negative value. */
  function IntToString(i: int): (s: string)
  {
    if i < 0 then "-" + NatToString(-i) else NatToString(i)
  }

  /** The value of an optionally signed decimal string. */
  function ParseInt(s: string): int
    requires s != [] && (s[0] == '-' || IsDigit(s[0]))
    requires forall i :: 1 <= i < |s| ==> IsDigit(s[i])
  {
    if s[0] == '-' then -(ParseNat(s[1..]) as int) else ParseNat(s)
  }

  /** `str` of an integer is readable back as the same integer. */
  lemma IntToStringRoundTrip(i: int)
    ensures var s := IntToString(i);
      s != [] && (s[0] == '-' || IsDigit(s[0])) && (forall k :: 1 <= k < |s| ==> IsDigit(s[k])) &&
      ParseInt(s) == i
  {
    if i < 0 {
      ParseNatToString(-i);
      assert IntToString(i)[1..] == NatToString(-i);
    } else {
      ParseNatToString(i);
    }
  }

  // ---------------------------------------------------------------------------
  // Literal pattern search

  /** Whether the literal `pat` stands in `s` at position `i`. */
  predicate OccursAt(s: string, pat: string, i: nat)
  {
    i + |pat| <= |s| && s[i..i + |pat|] == pat
  }

  /** Whether the literal `pat` occurs somewhere in `s` (a non-empty `re.findall` for a
      pattern without special characters). */
  function Contains(s: string, pat: string): (b: bool)
    ensures b <==> exists i: nat :: OccursAt(s, pat, i)
    decreases |s|
  {
    if |s| < |pat| then false
    else if s[..|pat|] == pat then assert OccursAt(s, pat, 0); true
    else
      var r := Contains(s[1..], pat);
      assert r ==> exists i: nat :: OccursAt(s, pat, i) by {
        if r {
          var j: nat :| OccursAt(s[1..], pat, j);
          assert s[j + 1..j + 1 + |pat|] == s[1..][j..j + |pat|];
          assert OccursAt(s, pat, j + 1);
        }
      }
      assert (exists i: nat :: OccursAt(s, pat, i)) ==> r by {
        if exists i: nat :: OccursAt(s, pat, i) {
          var i: nat :| OccursAt(s, pat, i);
          assert i != 0;
          assert s[1..][i - 1..i - 1 + |pat|] == s[i..i + |pat|];
          assert OccursAt(s[1..], pat, i - 1);
        }
      }
      r
  }
}
