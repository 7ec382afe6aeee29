/**
 * The string built-ins the core relies on: JavaScript's `String.prototype.split`
 * and `trim`, template-literal rendering of a non-negative integer, and the
 * Python helpers `str.replace(c, "")` and `"".join`.
 */
module Text {
  import opened Wrappers

  /**
   * `s.split(d)` for a non-empty separator: the pieces between the leftmost
   * non-overlapping occurrences of `d`, always at least one.
   */
  function Split(s: string, d: string): (parts: seq<string>)
    requires d != []
    ensures |parts| >= 1
    decreases |s|
  {
    if |s| < |d| then [s]
    else if s[..|d|] == d then [[]] + Split(s[|d|..], d)
    else
      var rest := Split(s[1..], d);
      [[s[0]] + rest[0]] + rest[1..]
  }

  /** `parts.join(d)`: the inverse of `Split`. */
  function Join(parts: seq<string>, d: string): string
    decreases |parts|
  {
    if parts == [] then []
    else if |parts| == 1 then parts[0]
    else parts[0] + d + Join(parts[1..], d)
  }

  /** Python's `"".join(pieces)`. */
  function Concat(pieces: seq<string>): string
    decreases |pieces|
  {
    if pieces == [] then [] else Concat(pieces[..|pieces| - 1]) + pieces[|pieces| - 1]
  }

  /** Re-bracketing a concatenation of three strings. */
  lemma Regroup(a: string, b: string, c: string)
    ensures a + (b + c) == a + b + c
  {
  }

  /** Joining a piece in front of at least one more. */
  lemma JoinCons(p: string, rest: seq<string>, d: string)
    requires rest != []
    ensures Join([p] + rest, d) == p + d + Join(rest, d)
  {
    assert ([p] + rest)[1..] == rest;
  }

  // The lemmas about `Split` below are proved by induction in a lemma that
  // only unfolds `Split` once, and one step lemma per case that does not
  // mention `Split` at all: the step is pure sequence reasoning.

  /** Splitting and re-joining with the same separator gives back the string. */
  lemma {:induction false} SplitJoin(s: string, d: string)
    requires d != []
    ensures Join(Split(s, d), d) == s
    decreases |s|
  {
    if |s| < |d| {
    } else if s[..|d|] == d {
      SplitJoin(s[|d|..], d);
      JoinAtSeparator(s, d, Split(s[|d|..], d));
    } else {
      SplitJoin(s[1..], d);
      JoinAtChar(s, d, Split(s[1..], d));
    }
  }

  lemma JoinAtSeparator(s: string, d: string, rest: seq<string>)
    requires |s| >= |d| && s[..|d|] == d && rest != []
    requires Join(rest, d) == s[|d|..]
    ensures Join([[]] + rest, d) == s
  {
    JoinCons([], rest, d);
    SeparatorThenRest(s, d, Join(rest, d));
  }

  /** A string that starts with `d` is `d` followed by the rest. */
  lemma SeparatorThenRest(s: string, d: string, t: string)
    requires |s| >= |d| && s[..|d|] == d && t == s[|d|..]
    ensures [] + d + t == s
  {
    assert s == s[..|d|] + s[|d|..];
  }

  lemma JoinAtChar(s: string, d: string, rest: seq<string>)
    requires |s| >= 1 && rest != []
    requires Join(rest, d) == s[1..]
    ensures Join([[s[0]] + rest[0]] + rest[1..], d) == s
  {
    if |rest| == 1 {
      assert [[s[0]] + rest[0]] + rest[1..] == [[s[0]] + rest[0]];
    } else {
      var tail := Join(rest[1..], d);
      JoinCons(rest[0], rest[1..], d);
      assert rest == [rest[0]] + rest[1..];
      JoinCons([s[0]] + rest[0], rest[1..], d);
      Regroup([s[0]], rest[0] + d, tail);
      Regroup([s[0]], rest[0], d);
    }
    assert s == [s[0]] + s[1..];
  }

  /**
   * `p` is the part of `s` before its first separator, or all of `s` when
   * there is none.
   */
  predicate UpToSeparator(s: string, d: string, p: string)
  {
    && |p| <= |s| && p == s[..|p|]
    && (|p| == |s| || (|p| + |d| <= |s| && s[|p|..|p| + |d|] == d))
  }

  /**
   * The first piece of a split is the prefix of `s` up to the first
   * separator: `d` follows it (or it is all of `s`), and `d` starts nowhere
   * inside it.
   */
  lemma {:induction false} FirstPartIsPrefix(s: string, d: string)
    requires d != []
    ensures UpToSeparator(s, d, Split(s, d)[0])
    ensures forall k: nat :: k < |Split(s, d)[0]| ==> !OccursAt(s, d, k)
    decreases |s|
  {
    if |s| < |d| {
    } else if s[..|d|] == d {
    } else {
      var r := Split(s[1..], d)[0];
      assert Split(s, d)[0] == [s[0]] + r;
      FirstPartIsPrefix(s[1..], d);
      FirstPartAtChar(s, d, r);
      NoEarlierSeparator(s, d, r);
    }
  }

  lemma NoEarlierSeparator(s: string, d: string, r: string)
    requires d != [] && |s| >= |d| && s[..|d|] != d
    requires forall k: nat :: k < |r| ==> !OccursAt(s[1..], d, k)
    ensures forall k: nat :: k < |r| + 1 ==> !OccursAt(s, d, k)
  {
    forall k: nat | k < |r| + 1
      ensures !OccursAt(s, d, k)
    {
      if k > 0 && k + |d| <= |s| {
        assert s[k..k + |d|] == s[1..][k - 1..k - 1 + |d|];
        assert !OccursAt(s[1..], d, k - 1);
      }
    }
  }

  lemma FirstPartAtChar(s: string, d: string, r: string)
    requires |s| >= 1 && UpToSeparator(s[1..], d, r)
    ensures UpToSeparator(s, d, [s[0]] + r)
  {
    assert s[1..][|r|..] == s[|r| + 1..];
    assert s[..|r| + 1] == [s[0]] + s[1..][..|r|];
  }

  /**
   * When there is a separator, `s` is the first piece, the separator, and a
   * remainder whose split is the rest of the pieces.
   */
  lemma {:induction false} SplitTail(s: string, d: string)
    requires d != []
    ensures var parts := Split(s, d); var k := |parts[0]| + |d|;
      |parts| >= 2 ==> k <= |s| && s == parts[0] + d + s[k..] && Split(s[k..], d) == parts[1..]
    decreases |s|
  {
    if |s| < |d| {
    } else if s[..|d|] == d {
      SeparatorThenRest(s, d, s[|d|..]);
    } else {
      SplitTail(s[1..], d);
      var rest := Split(s[1..], d);
      if |rest| >= 2 {
        TailAtChar(s, d, rest[0]);
      }
    }
  }

  /** `SplitTail`, naming the remainder after the first separator. */
  lemma SplitRemainder(s: string, d: string) returns (t: string)
    requires d != [] && |Split(s, d)| >= 2
    ensures |t| < |s| && s == Split(s, d)[0] + d + t && Split(t, d) == Split(s, d)[1..]
  {
    SplitTail(s, d);
    t := s[|Split(s, d)[0]| + |d|..];
  }

  lemma TailAtChar(s: string, d: string, r: string)
    requires |s| >= 1 && |r| + |d| <= |s| - 1 && s[1..] == r + d + s[1..][|r| + |d|..]
    ensures var k := |r| + |d| + 1;
      && k <= |s| && s == ([s[0]] + r) + d + s[k..] && s[k..] == s[1..][|r| + |d|..]
  {
    var k := |r| + |d| + 1;
    assert s[1..][|r| + |d|..] == s[k..];
    assert s == [s[0]] + s[1..];
    Regroup([s[0]], r + d, s[k..]);
    Regroup([s[0]], r, d);
  }

  /** No piece of a split on a character contains that character. */
  lemma {:induction false} SplitPartsFree(s: string, c: char)
    ensures forall p :: p in Split(s, [c]) ==> c !in p
    decreases |s|
  {
    if |s| < 1 {
    } else if s[..1] == [c] {
      SplitPartsFree(s[1..], c);
    } else {
      SplitPartsFree(s[1..], c);
      assert s[..1] == [s[0]];
      PartsFreeAtChar(s[0], c, Split(s[1..], [c]));
    }
  }

  lemma PartsFreeAtChar(ch: char, c: char, rest: seq<string>)
    requires ch != c && rest != []
    requires forall p :: p in rest ==> c !in p
    ensures forall p :: p in [[ch] + rest[0]] + rest[1..] ==> c !in p
  {
    assert forall p :: p in rest[1..] ==> p in rest;
    assert rest[0] in rest;
  }

  /** `d` occurs in `p` at position `k`. */
  predicate OccursAt(p: string, d: string, k: nat)
  {
    k + |d| <= |p| && p[k..k + |d|] == d
  }

  /** `d` occurs nowhere in `p`. */
  predicate Free(p: string, d: string)
  {
    forall k: nat :: k <= |p| ==> !OccursAt(p, d, k)
  }

  /**
   * The first piece holds no separator: `split` cuts at the leftmost
   * occurrence.
   */
  lemma {:induction false} FirstPartFree(s: string, d: string)
    requires d != []
    ensures Free(Split(s, d)[0], d)
    decreases |s|
  {
    if |s| < |d| {
    } else if s[..|d|] == d {
    } else {
      var r := Split(s[1..], d)[0];
      assert Split(s, d)[0] == [s[0]] + r;
      FirstPartFree(s[1..], d);
      FirstPartIsPrefix(s, d);
      FreeAtChar(s, d, r);
    }
  }

  lemma FreeAtChar(s: string, d: string, r: string)
    requires d != [] && |s| >= |d| && s[..|d|] != d
    requires Free(r, d) && |r| + 1 <= |s| && [s[0]] + r == s[..|r| + 1]
    ensures Free([s[0]] + r, d)
  {
    var p := [s[0]] + r;
    forall k: nat | k <= |p|
      ensures !OccursAt(p, d, k)
    {
      if k == 0 {
        if |d| <= |p| {
          assert p[..|d|] == s[..|r| + 1][..|d|] == s[..|d|];
        }
      } else if k + |d| <= |p| {
        assert p[k..k + |d|] == r[k - 1..k - 1 + |d|];
        assert !OccursAt(r, d, k - 1);
      }
    }
  }

  /**
   * No piece of a split holds the separator, whatever its length: for
   * `split("$#$")`, no piece contains `$#$`.
   */
  lemma {:induction false} SplitPartsFreeOf(s: string, d: string)
    requires d != []
    ensures forall i :: 0 <= i < |Split(s, d)| ==> Free(Split(s, d)[i], d)
    decreases |s|
  {
    var parts := Split(s, d);
    FirstPartFree(s, d);
    if |parts| >= 2 {
      var t := SplitRemainder(s, d);
      SplitPartsFreeOf(t, d);
      assert forall i :: 1 <= i < |parts| ==> parts[i] == Split(t, d)[i - 1];
    }
  }

  /**
   * `p` is the part of `s` after its last `c`, or all of `s` when there is
   * none (`count` being the number of pieces).
   */
  predicate AfterLast(s: string, c: char, count: nat, p: string)
  {
    && |p| <= |s| && p == s[|s| - |p|..]
    && (count == 1 ==> p == s)
    && (count > 1 ==> |p| < |s| && s[|s| - |p| - 1] == c)
  }

  /** The last piece of a split on a character is the suffix after its last occurrence. */
  lemma {:induction false} LastPartIsSuffix(s: string, c: char)
    ensures var parts := Split(s, [c]); AfterLast(s, c, |parts|, parts[|parts| - 1])
    ensures var parts := Split(s, [c]); c !in parts[|parts| - 1]
    decreases |s|
  {
    var parts := Split(s, [c]);
    SplitPartsFree(s, c);
    assert parts[|parts| - 1] in parts;
    if |parts| == 1 {
      SplitJoin(s, [c]);
      OnlyPartIsWhole(s, c, parts);
    } else {
      var t := SplitRemainder(s, [c]);
      LastPartIsSuffix(t, c);
      LastPartOfTail(s, c, parts, t, Split(t, [c]));
    }
  }

  lemma LastPartOfTail(s: string, c: char, parts: seq<string>, t: string, rest: seq<string>)
    requires |parts| >= 2 && s == parts[0] + [c] + t && rest == parts[1..]
    requires AfterLast(t, c, |rest|, rest[|rest| - 1])
    ensures AfterLast(s, c, |parts|, parts[|parts| - 1])
  {
    LastOfTail(parts, rest);
    LastPartAfterFirst(s, c, parts[0], t, |parts|, parts[|parts| - 1]);
  }

  lemma OnlyPartIsWhole(s: string, c: char, parts: seq<string>)
    requires |parts| == 1 && Join(parts, [c]) == s
    ensures AfterLast(s, c, |parts|, parts[|parts| - 1])
  {
    assert s[|s| - |s|..] == s;
  }

  lemma LastOfTail(parts: seq<string>, rest: seq<string>)
    requires |parts| >= 2 && rest == parts[1..]
    ensures |rest| == |parts| - 1 && rest[|rest| - 1] == parts[|parts| - 1]
  {
  }

  lemma LastPartAfterFirst(s: string, c: char, first: string, t: string, count: nat, p: string)
    requires count >= 2 && s == first + [c] + t && AfterLast(t, c, count - 1, p)
    ensures AfterLast(s, c, count, p)
  {
    assert t[|t| - |p|..] == s[|s| - |p|..];
    if count == 2 {
      assert s[|s| - |p| - 1] == c;
    } else {
      assert t[|t| - |p| - 1] == s[|s| - |p| - 1];
    }
  }

  /** The number of occurrences of `c` in `s`. */
  function CountChar(s: string, c: char): nat
    decreases |s|
  {
    if s == [] then 0 else (if s[0] == c then 1 else 0) + CountChar(s[1..], c)
  }

  /** A character that occurs is counted. */
  lemma {:induction false} CountCharPositive(s: string, c: char)
    requires c in s
    ensures CountChar(s, c) >= 1
    decreases |s|
  {
    if s[0] != c {
      assert c in s[1..];
      CountCharPositive(s[1..], c);
    }
  }

  /** Splitting on one character yields one more piece than it has occurrences. */
  lemma {:induction false} SplitCount(s: string, c: char)
    ensures |Split(s, [c])| == CountChar(s, c) + 1
    decreases |s|
  {
    if |s| >= 1 {
      SplitCount(s[1..], c);
      assert s[..1] == [s[0]];
    }
  }

  /** The white-space and line-terminator characters JavaScript's `trim` removes. */
  predicate IsJsWhiteSpace(ch: char)
  {
    || ch == ' ' || ch == '\t' || ch == '\n' || ch == '\r'
    || ch == '\U{000B}' || ch == '\U{000C}' || ch == '\U{00A0}' || ch == '\U{FEFF}'
    || ch == '\U{1680}' || ('\U{2000}' <= ch <= '\U{200A}') || ch == '\U{2028}' || ch == '\U{2029}'
    || ch == '\U{202F}' || ch == '\U{205F}' || ch == '\U{3000}'
  }

  /** Is every character of `s` white space? */
  predicate AllWhiteSpace(s: string)
  {
    forall i :: 0 <= i < |s| ==> IsJsWhiteSpace(s[i])
  }

  /** The number of white-space characters `s` starts with. */
  function LeadingWhiteSpace(s: string): (n: nat)
    ensures n <= |s| && AllWhiteSpace(s[..n])
    ensures n == |s| || !IsJsWhiteSpace(s[n])
    decreases |s|
  {
    if s != [] && IsJsWhiteSpace(s[0]) then
      var n := LeadingWhiteSpace(s[1..]);
      assert forall i :: 0 < i <= n ==> s[i] == s[1..][i - 1];
      n + 1
    else 0
  }

  /** The number of white-space characters `s` ends with. */
  function TrailingWhiteSpace(s: string): (n: nat)
    ensures n <= |s| && AllWhiteSpace(s[|s| - n..])
    ensures n == |s| || !IsJsWhiteSpace(s[|s| - n - 1])
    decreases |s|
  {
    if s != [] && IsJsWhiteSpace(s[|s| - 1]) then
      var n := TrailingWhiteSpace(s[..|s| - 1]);
      assert forall i :: |s| - n - 1 <= i < |s| - 1 ==> s[i] == s[..|s| - 1][i];
      n + 1
    else 0
  }

  /**
   * `r` is what is left of `s` once its first `i` characters and some
   * characters at the end, all white space, are cut off, and `r` neither
   * starts nor ends with white space.
   */
  predicate TrimmedAt(s: string, i: nat, r: string)
  {
    && i + |r| <= |s| && r == s[i..i + |r|]
    && AllWhiteSpace(s[..i]) && AllWhiteSpace(s[i + |r|..])
    && (r == [] || (!IsJsWhiteSpace(r[0]) && !IsJsWhiteSpace(r[|r| - 1])))
  }

  /**
   * `s.trim()`: the slice of `s` left once the white space on both sides is
   * cut off.
   */
  function Trim(s: string): (r: string)
    ensures TrimmedAt(s, LeadingWhiteSpace(s), r)
  {
    var i := LeadingWhiteSpace(s);
    var j := TrailingWhiteSpace(s[i..]);
    TrimSlice(s, i, j);
    s[i..|s| - j]
  }

  lemma TrimSlice(s: string, i: nat, j: nat)
    requires i <= |s| && j <= |s| - i
    requires AllWhiteSpace(s[..i]) && (i == |s| || !IsJsWhiteSpace(s[i]))
    requires AllWhiteSpace(s[i..][|s| - i - j..])
    requires j == |s| - i || !IsJsWhiteSpace(s[i..][|s| - i - j - 1])
    ensures TrimmedAt(s, i, s[i..|s| - j])
  {
    assert s[i..][|s| - i - j..] == s[|s| - j..];
  }

  /** The digit character for `d`. */
  function DigitChar(d: nat): (ch: char)
    requires d < 10
    ensures '0' <= ch <= '9'
  {
    ('0' as int + d) as char
  }

  /** The decimal rendering of `n`, as a template literal `${n}` produces it. */
  function NatToString(n: nat): (r: string)
    ensures |r| >= 1
    ensures n >= 10 ==> |r| >= 2
    decreases n
  {
    if n < 10 then [DigitChar(n)] else NatToString(n / 10) + [DigitChar(n % 10)]
  }

  /** Distinct numbers render as distinct strings. */
  lemma {:induction false} NatToStringInjective(m: nat, n: nat)
    requires NatToString(m) == NatToString(n)
    ensures m == n
    decreases m
  {
    var sm, sn := NatToString(m), NatToString(n);
    if m >= 10 && n >= 10 {
      assert sm[..|sm| - 1] == NatToString(m / 10);
      assert sn[..|sn| - 1] == NatToString(n / 10);
      NatToStringInjective(m / 10, n / 10);
      assert sm[|sm| - 1] == DigitChar(m % 10);
      assert sn[|sn| - 1] == DigitChar(n % 10);
    } else if m < 10 && n < 10 {
      assert sm[0] == DigitChar(m);
    }
  }

  /** `s.replace(c, "")`: `s` with every occurrence of `c` removed. */
  function RemoveChar(s: string, c: char): (r: string)
    ensures c !in r
    ensures |r| == |s| - CountChar(s, c)
    ensures forall ch :: ch in r ==> ch in s
    ensures forall ch :: ch in s && ch != c ==> ch in r
    decreases |s|
  {
    if s == [] then []
    else (if s[0] == c then [] else [s[0]]) + RemoveChar(s[1..], c)
  }

  /** Removing a character works piece by piece, so the kept characters stay in order. */
  lemma {:induction false} RemoveCharAppend(a: string, b: string, c: char)
    ensures RemoveChar(a + b, c) == RemoveChar(a, c) + RemoveChar(b, c)
    decreases |a|
  {
    if a == [] {
      assert a + b == b;
    } else {
      assert (a + b)[0] == a[0];
      assert (a + b)[1..] == a[1..] + b;
      RemoveCharAppend(a[1..], b, c);
    }
  }

  /** On one character: that character goes, any other stays. */
  lemma RemoveCharSingle(x: char, c: char)
    ensures RemoveChar([x], c) == if x == c then [] else [x]
  {
    assert [x][1..] == [];
  }

  /** Text without the character is left as it is. */
  lemma {:induction false} RemoveCharAbsent(s: string, c: char)
    requires c !in s
    ensures RemoveChar(s, c) == s
    decreases |s|
  {
    if s != [] {
      assert c !in s[1..] by {
        forall k | 0 <= k < |s[1..]| ensures s[1..][k] != c { assert s[1..][k] == s[k + 1]; }
      }
      RemoveCharAbsent(s[1..], c);
      assert [s[0]] + s[1..] == s;
    }
  }
}
