/** Python `str` operations used by the tracker, with Python's semantics:
    `str.find` (returns -1 when absent), `in`, `str.split(sep)` for a
    non-empty separator, and slicing with negative and out-of-range indices. */
module PyStr {

  /** `sub` occurs in `s` starting at index `i`. */
  predicate OccursAt(s: string, sub: string, i: int)
  {
    0 <= i && i + |sub| <= |s| && s[i..i + |sub|] == sub
  }

  lemma OccursAtTail(s: string, sub: string, j: int)
    requires |s| > 0 && 0 <= j
    ensures OccursAt(s, sub, j + 1) <==> OccursAt(s[1..], sub, j)
  {
    if j + 1 + |sub| <= |s| {
      assert s[1..][j..j + |sub|] == s[j + 1..j + 1 + |sub|];
    }
  }

  /** Python `s.find(sub)`: the lowest index at which `sub` occurs, or -1. */
  function Find(s: string, sub: string): (r: int)
    ensures -1 <= r
    ensures r >= 0 ==> OccursAt(s, sub, r)
    decreases |s|
  {
    if |s| < |sub| then -1
    else if s[..|sub|] == sub then 0
    else
      var k := Find(s[1..], sub);
      if k < 0 then -1
      else
        OccursAtTail(s, sub, k);
        k + 1
  }

  /** No occurrence comes before the one `Find` reports, and there is none
      at all when it reports -1. */
  lemma {:induction false} FindFirst(s: string, sub: string)
    ensures forall j :: 0 <= j && (Find(s, sub) < 0 || j < Find(s, sub)) ==> !OccursAt(s, sub, j)
    decreases |s|
  {
    if |s| >= |sub| && s[..|sub|] != sub {
      FindFirst(s[1..], sub);
      assert !OccursAt(s, sub, 0) by {
        assert s[..|sub|] == s[0..|sub|];
      }
      forall j | 1 <= j
        ensures OccursAt(s, sub, j) <==> OccursAt(s[1..], sub, j - 1)
      {
        OccursAtTail(s, sub, j - 1);
      }
    }
  }

  /** An occurrence with none before it is what `Find` reports. */
  lemma FindIs(s: string, sub: string, i: int)
    requires OccursAt(s, sub, i)
    requires forall j :: 0 <= j < i ==> !OccursAt(s, sub, j)
    ensures Find(s, sub) == i
  {
    FindFirst(s, sub);
  }

  /** Python `sub in s`: the empty needle is in every string, and a needle
      longer than the text is in none. */
  predicate Contains(s: string, sub: string)
    ensures sub == [] ==> Contains(s, sub)
    ensures Contains(s, sub) ==> |sub| <= |s|
  {
    Find(s, sub) >= 0
  }

  lemma ContainsIff(s: string, sub: string)
    ensures Contains(s, sub) <==> exists j :: OccursAt(s, sub, j)
  {
    FindFirst(s, sub);
  }

  /** A one-character needle occurs exactly where that character is. */
  lemma OccursAtChar(s: string, c: char, j: int)
    ensures OccursAt(s, [c], j) <==> 0 <= j < |s| && s[j] == c
  {
    if 0 <= j < |s| {
      assert s[j..j + 1] == [s[j]];
    }
  }

  /** `s.find(c)` for a single character is the index of its first occurrence. */
  lemma {:induction false} FindChar(x: string, c: char, y: string)
    requires c !in x
    ensures Find(x + [c] + y, [c]) == |x|
  {
    var s := x + [c] + y;
    OccursAtChar(s, c, |x|);
    forall j | 0 <= j < |x|
      ensures !OccursAt(s, [c], j)
    {
      OccursAtChar(s, c, j);
      assert s[j] == x[j];
    }
    FindIs(s, [c], |x|);
  }

  lemma {:induction false} FindCharAbsent(x: string, c: char)
    requires c !in x
    ensures Find(x, [c]) == -1
  {
    if Find(x, [c]) >= 0 {
      OccursAtChar(x, c, Find(x, [c]));
      assert false;
    }
  }

  /** One differing character rules an occurrence out. */
  lemma Mismatch(s: string, sub: string, j: int, t: int)
    requires 0 <= j && 0 <= t < |sub| && j + t < |s| && s[j + t] != sub[t]
    ensures !OccursAt(s, sub, j)
  {
    if j + |sub| <= |s| {
      assert s[j..j + |sub|][t] == s[j + t];
    }
  }

  /** An occurrence inside a slice is an occurrence in the whole string. */
  lemma OccursInSlice(s: string, i: int, j: int, sub: string, k: int)
    requires 0 <= i <= j <= |s| && OccursAt(s[i..j], sub, k)
    ensures OccursAt(s, sub, i + k)
  {
    var w := s[i..j];
    assert |w| == j - i;
    forall t | 0 <= t < |sub| ensures s[i + k + t] == sub[t] {
      assert w[k..k + |sub|][t] == w[k + t] == s[i + k + t];
    }
    assert s[i + k..i + k + |sub|] == sub;
  }

  /** An occurrence wholly inside a prefix is an occurrence in that prefix. */
  lemma OccursInPrefix(x: string, y: string, sub: string, j: int)
    requires OccursAt(x + y, sub, j) && j + |sub| <= |x|
    ensures OccursAt(x, sub, j)
  {
    assert (x + y)[j..j + |sub|] == x[j..j + |sub|];
  }

  /** An occurrence in a string is also one in any extension of it. */
  lemma OccursExtends(x: string, y: string, sub: string, j: int)
    requires OccursAt(x, sub, j)
    ensures OccursAt(x + y, sub, j)
  {
    assert (x + y)[j..j + |sub|] == x[j..j + |sub|];
  }

  /** `sep.join(parts)`, the inverse of Split: the parts separated by `sep`. */
  function Join(parts: seq<string>, sep: string): string
    requires |parts| >= 1
  {
    if |parts| == 1 then parts[0] else parts[0] + sep + Join(parts[1..], sep)
  }

  /** Python `s.split(sep)` for a non-empty separator: scans left to right,
      cutting at each non-overlapping occurrence. */
  function Split(s: string, sep: string): (parts: seq<string>)
    requires sep != []
    ensures |parts| >= 1
    ensures |parts| >= 2 <==> Contains(s, sep)
    decreases |s|
  {
    var i := Find(s, sep);
    if i < 0 then [s]
    else [s[..i]] + Split(s[i + |sep|..], sep)
  }

  /** The parts joined with `sep` give the string back, and no part holds
      the separator. */
  lemma {:induction false} SplitParts(s: string, sep: string)
    requires sep != []
    ensures Join(Split(s, sep), sep) == s
    ensures forall k :: 0 <= k < |Split(s, sep)| ==> !Contains(Split(s, sep)[k], sep)
    decreases |s|
  {
    var i := Find(s, sep);
    if i >= 0 {
      var head, rest := s[..i], s[i + |sep|..];
      SplitParts(rest, sep);
      FindFirst(s, sep);
      assert s == head + s[i..];
      assert !Contains(head, sep) by {
        if Contains(head, sep) {
          OccursExtends(head, s[i..], sep, Find(head, sep));
        }
      }
      assert s == head + sep + rest;
      var parts := Split(s, sep);
      assert parts[1..] == Split(rest, sep);
      forall k | 1 <= k < |parts| ensures !Contains(parts[k], sep) {
        assert parts[k] == Split(rest, sep)[k - 1];
      }
    }
  }

  /** A separator-free string splits into itself. */
  lemma SplitNone(s: string, sep: string)
    requires sep != [] && !Contains(s, sep)
    ensures Split(s, sep) == [s]
  {
  }

  /** Splitting on a character at its first occurrence. */
  lemma {:induction false} SplitAtChar(x: string, c: char, y: string)
    requires c !in x
    ensures Split(x + [c] + y, [c]) == [x] + Split(y, [c])
  {
    var s := x + [c] + y;
    FindChar(x, c, y);
    assert s[..|x|] == x;
    assert s[|x| + 1..] == y;
  }

  /** A string without the character splits into itself. */
  lemma {:induction false} SplitNoChar(x: string, c: char)
    requires c !in x
    ensures Split(x, [c]) == [x]
  {
    FindCharAbsent(x, c);
  }

  /** The whitespace `float()` ignores around a number: ASCII whitespace,
      and the non-ASCII characters for which `isspace()` holds (which it
      first turns into spaces). The ASCII information separators U+001C to
      U+001F, although `isspace()` holds for them, are not ignored. */
  predicate IsSpace(c: char)
    ensures IsSpace(c) ==> !('0' <= c <= '9') && c !in ".,+-"
  {
    || c == ' ' || ('\t' <= c <= '\r')
    || c == '\U{85}' || c == '\U{a0}' || c == '\U{1680}' || ('\U{2000}' <= c <= '\U{200a}')
    || c == '\U{2028}' || c == '\U{2029}' || c == '\U{202f}' || c == '\U{205f}' || c == '\U{3000}'
  }

  predicate AllSpace(s: string)
  {
    forall i :: 0 <= i < |s| ==> IsSpace(s[i])
  }

  /** Neither end of `s` is whitespace. */
  predicate Trimmed(s: string)
  {
    s == [] || (!IsSpace(s[0]) && !IsSpace(s[|s| - 1]))
  }

  function StripLeading(s: string): (r: string)
    ensures |r| <= |s|
    decreases |s|
  {
    if s != [] && IsSpace(s[0]) then StripLeading(s[1..]) else s
  }

  function StripTrailing(s: string): (r: string)
    ensures |r| <= |s|
    decreases |s|
  {
    if s != [] && IsSpace(s[|s| - 1]) then StripTrailing(s[..|s| - 1]) else s
  }

  /** Whitespace, in the sense above, removed from both ends. */
  function Strip(s: string): (r: string)
    ensures |r| <= |s|
  {
    StripTrailing(StripLeading(s))
  }

  /** What stripping leaves has no whitespace at either end, and is the
      piece of the text that starts after its leading whitespace. */
  lemma StripResult(s: string)
    ensures Trimmed(Strip(s))
    ensures var i := |s| - |StripLeading(s)|;
            i + |Strip(s)| <= |s| && Strip(s) == s[i..i + |Strip(s)|]
  {
    var x := StripLeading(s);
    var r := StripTrailing(x);
    StripLeadingSuffix(s);
    StripTrailingPrefix(x);
    TrimmedPiece(s, |s| - |x|, x, r);
  }

  /** Leading stripping leaves a suffix that does not start with whitespace. */
  lemma {:induction false} StripLeadingSuffix(s: string)
    ensures StripLeading(s) == s[|s| - |StripLeading(s)|..]
    ensures StripLeading(s) == [] || !IsSpace(StripLeading(s)[0])
    decreases |s|
  {
    if s != [] && IsSpace(s[0]) {
      StripLeadingSuffix(s[1..]);
    }
  }

  /** Trailing stripping leaves a prefix that does not end with whitespace. */
  lemma {:induction false} StripTrailingPrefix(s: string)
    ensures StripTrailing(s) == s[..|StripTrailing(s)|]
    ensures StripTrailing(s) == [] || !IsSpace(StripTrailing(s)[|StripTrailing(s)| - 1])
    decreases |s|
  {
    if s != [] && IsSpace(s[|s| - 1]) {
      StripTrailingPrefix(s[..|s| - 1]);
    }
  }

  /** A prefix of the suffix from `i` is the piece of `s` starting at `i`;
      it is trimmed when the suffix starts, and the prefix ends, with a
      character other than whitespace. */
  lemma TrimmedPiece(s: string, i: nat, x: string, r: string)
    requires i <= |s| && x == s[i..] && |r| <= |x| && r == x[..|r|]
    requires x == [] || !IsSpace(x[0])
    requires r == [] || !IsSpace(r[|r| - 1])
    ensures i + |r| <= |s| && r == s[i..i + |r|]
    ensures Trimmed(r)
  {
    if r != [] {
      assert r[0] == x[0];
    }
  }

  lemma {:induction false} StripLeadingSpaces(w: string, x: string)
    requires AllSpace(w) && (x == [] || !IsSpace(x[0]))
    ensures StripLeading(w + x) == x
    decreases |w|
  {
    if w != [] {
      assert (w + x)[1..] == w[1..] + x;
      StripLeadingSpaces(w[1..], x);
    } else {
      assert w + x == x;
    }
  }

  lemma {:induction false} StripTrailingSpaces(x: string, w: string)
    requires AllSpace(w) && (x == [] || !IsSpace(x[|x| - 1]))
    ensures StripTrailing(x + w) == x
    decreases |w|
  {
    if w != [] {
      assert (x + w)[..|x + w| - 1] == x + w[..|w| - 1];
      StripTrailingSpaces(x, w[..|w| - 1]);
    } else {
      assert x + w == x;
    }
  }

  /** Stripping removes exactly the whitespace around a trimmed text. */
  lemma StripPadded(w1: string, s: string, w2: string)
    requires AllSpace(w1) && AllSpace(w2) && s != [] && Trimmed(s)
    ensures Strip(w1 + s + w2) == s
  {
    assert w1 + s + w2 == w1 + (s + w2);
    StripLeadingSpaces(w1, s + w2);
    StripTrailingSpaces(s, w2);
  }

  /** A trimmed text strips to itself. */
  lemma StripTrimmed(s: string)
    requires Trimmed(s)
    ensures Strip(s) == s
  {
  }

  /** Python's index normalisation for slices: negative counts from the
      end, then clamp into [0, n]. */
  function ClampIndex(i: int, n: nat): (k: nat)
    ensures k <= n
    ensures 0 <= i <= n ==> k == i
    ensures i < 0 && -i <= n ==> k == n + i
    ensures i > n ==> k == n
    ensures i < 0 && -i > n ==> k == 0
  {
    if i < 0 then (if i + n < 0 then 0 else i + n)
    else if i > n then n
    else i
  }

  /** Python `s[start:stop]`. */
  function Slice(s: string, start: int, stop: int): (r: string)
    ensures |r| <= |s|
    ensures ClampIndex(start, |s|) >= ClampIndex(stop, |s|) ==> r == []
  {
    var a := ClampIndex(start, |s|);
    var b := ClampIndex(stop, |s|);
    if a <= b then s[a..b] else []
  }

  /** Python `s[start:]`. */
  function SliceFrom(s: string, start: int): (r: string)
    ensures |r| <= |s|
    ensures 0 <= start <= |s| ==> r == s[start..]
    ensures start == -1 && s != [] ==> r == [s[|s| - 1]]
    ensures start > |s| ==> r == []
  {
    s[ClampIndex(start, |s|)..]
  }

  /** In-range bounds slice as they are. */
  lemma SliceWithin(s: string, start: int, stop: int)
    requires 0 <= start <= stop <= |s|
    ensures Slice(s, start, stop) == s[start..stop]
  {
  }

  /** `s[start:-1]` drops the last character. */
  lemma SliceToLast(s: string, start: int)
    requires 0 <= start <= |s| - 1
    ensures Slice(s, start, -1) == s[start..|s| - 1]
  {
  }
}
