/** The handful of Python `str` operations the bot's core relies on:
    `strip`, `startswith`, `in`, `split(sep)[0]` and `split(sep)[-1]`. */
module Text {

  /** Whitespace removed by `str.strip()`, restricted to the ASCII set:
      blank, tab, the line and page breaks, and the separators 0x1C to 0x1F. */
  predicate IsSpace(c: char)
  {
    c == ' ' || c == '\t' || c == '\n' || c == '\U{000B}' || c == '\U{000C}' || c == '\r'
    || c == '\U{001C}' || c == '\U{001D}' || c == '\U{001E}' || c == '\U{001F}'
  }

  /** A string `strip()` leaves unchanged: empty, or no space at either end. */
  predicate IsStripped(s: string)
  {
    |s| > 0 ==> !IsSpace(s[0]) && !IsSpace(s[|s| - 1])
  }

  /** `s.lstrip()`: the suffix left after dropping leading whitespace. */
  function TrimLeft(s: string): (r: string)
    ensures |r| <= |s| && r == s[|s| - |r|..]
    ensures |r| > 0 ==> !IsSpace(r[0])
    ensures forall i :: 0 <= i < |s| - |r| ==> IsSpace(s[i])
  {
    if |s| > 0 && IsSpace(s[0]) then TrimLeft(s[1..]) else s
  }

  /** `s.rstrip()`: the prefix left after dropping trailing whitespace. */
  function TrimRight(s: string): (r: string)
    ensures |r| <= |s| && r == s[..|r|]
    ensures |r| > 0 ==> !IsSpace(r[|r| - 1])
    ensures forall i :: |r| <= i < |s| ==> IsSpace(s[i])
  {
    if |s| > 0 && IsSpace(s[|s| - 1]) then TrimRight(s[..|s| - 1]) else s
  }

  /** Leading whitespace up to a non-space at `j` is exactly what `lstrip()` drops. */
  lemma TrimLeftAt(s: string, j: nat)
    requires j < |s| && !IsSpace(s[j])
    requires forall i :: 0 <= i < j ==> IsSpace(s[i])
    ensures TrimLeft(s) == s[j..]
  {
  }

  /** `rstrip()` keeps every character up to the last non-space. */
  lemma TrimRightKeeps(s: string, n: nat)
    requires 0 < n <= |s| && !IsSpace(s[n - 1])
    ensures n <= |TrimRight(s)|
  {
  }

  /** `s.strip()`. */
  function Strip(s: string): (r: string)
    ensures IsStripped(r)
    ensures |r| <= |s|
  {
    TrimRight(TrimLeft(s))
  }

  /** A pattern that begins and ends with non-spaces, found after a run of
      whitespace, is a prefix of the stripped string. */
  lemma StripKeepsPrefix(s: string, p: string, j: nat)
    requires |p| > 0 && !IsSpace(p[0]) && !IsSpace(p[|p| - 1])
    requires OccursAt(s, p, j)
    requires forall i :: 0 <= i < j ==> IsSpace(s[i])
    ensures StartsWith(Strip(s), p)
  {
    var n := |p|;
    assert s[j] == s[j..j + n][0];
    TrimLeftAt(s, j);
    var l := s[j..];
    assert l[..n] == p;
    assert l[n - 1] == p[n - 1];
    TrimRightKeeps(l, n);
    var r := TrimRight(l);
    assert r[..n] == l[..n];
  }

  /** A prefix of the stripped string occurs right after the leading whitespace. */
  lemma StripPrefixOccurs(s: string, p: string)
    requires StartsWith(Strip(s), p)
    ensures OccursAt(s, p, |s| - |TrimLeft(s)|)
  {
    var l := TrimLeft(s);
    var r := TrimRight(l);
    assert r == Strip(s);
    PrefixOfPrefix(l, r, p);
    SuffixPrefix(s, l, p);
  }

  /** A prefix of a prefix of `l` is a prefix of `l`. */
  lemma PrefixOfPrefix(l: string, r: string, p: string)
    requires |r| <= |l| && r == l[..|r|]
    requires StartsWith(r, p)
    ensures StartsWith(l, p)
  {
    assert l[..|p|] == r[..|p|];
  }

  /** A prefix of a suffix `l` of `s` occurs in `s` where `l` begins. */
  lemma SuffixPrefix(s: string, l: string, p: string)
    requires |l| <= |s| && l == s[|s| - |l|..]
    requires StartsWith(l, p)
    ensures OccursAt(s, p, |s| - |l|)
  {
    var j := |s| - |l|;
    assert s[j..j + |p|] == l[..|p|];
  }

  /** `strip()` is the identity on a string with no whitespace at either end. */
  lemma StripStripped(s: string)
    requires IsStripped(s)
    ensures Strip(s) == s
  {
    assert TrimLeft(s) == s;
  }

  /** Stripping removes a single leading blank in front of a stripped string. */
  lemma StripLeadingBlank(s: string)
    requires IsStripped(s)
    ensures Strip(" " + s) == s
  {
    assert (" " + s)[1..] == s;
    assert TrimLeft(" " + s) == TrimLeft(s);
    StripStripped(s);
  }

  /** `s.startswith(p)`. */
  predicate StartsWith(s: string, p: string)
  {
    |p| <= |s| && s[..|p|] == p
  }

  /** `sub` occurs in `s` starting at position `i`. */
  predicate OccursAt(s: string, sub: string, i: int)
  {
    0 <= i && i + |sub| <= |s| && s[i..i + |sub|] == sub
  }

  /** Python's `sub in s`. */
  predicate Contains(s: string, sub: string)
  {
    exists i :: 0 <= i <= |s| - |sub| && OccursAt(s, sub, i)
  }

  /** A string cannot contain a pattern one of whose characters it lacks. */
  lemma NotContainsMissingChar(s: string, sub: string, c: char)
    requires c in sub
    requires c !in s
    ensures !Contains(s, sub)
  {
    var j :| 0 <= j < |sub| && sub[j] == c;
    forall i | 0 <= i <= |s| - |sub|
      ensures !OccursAt(s, sub, i)
    {
      assert s[i..i + |sub|][j] == s[i + j];
      assert s[i + j] in s;
    }
  }

  /** A string contains every string it ends with. */
  lemma ContainsSuffix(a: string, b: string)
    ensures Contains(a + b, b)
  {
    assert (a + b)[|a|..|a| + |b|] == b;
    assert OccursAt(a + b, b, |a|);
  }

  /** `s.split(sep)[0]`: everything before the first occurrence of `sep`,
      or the whole string when `sep` does not occur. */
  function SplitHead(s: string, sep: string): (r: string)
    requires |sep| > 0
    ensures |r| <= |s| && r == s[..|r|]
    ensures forall i :: 0 <= i < |r| ==> !OccursAt(s, sep, i)
    ensures |r| < |s| ==> OccursAt(s, sep, |r|)
    ensures |r| == |s| <==> !Contains(s, sep)
    decreases |s|
  {
    if |s| < |sep| then s
    else if s[..|sep|] == sep then []
    else
      var t := SplitHead(s[1..], sep);
      ContainsTail(s, sep);
      [s[0]] + t
  }

  /** Dropping a first character that starts no occurrence shifts every
      occurrence one place left and loses none. */
  lemma ContainsTail(s: string, sep: string)
    requires 0 < |sep| <= |s| && s[..|sep|] != sep
    ensures forall i :: 1 <= i <= |s| ==> OccursAt(s, sep, i) == OccursAt(s[1..], sep, i - 1)
    ensures Contains(s, sep) <==> Contains(s[1..], sep)
  {
    forall i | 1 <= i <= |s|
      ensures OccursAt(s, sep, i) == OccursAt(s[1..], sep, i - 1)
    {
      if i + |sep| <= |s| {
        assert s[i..i + |sep|] == s[1..][i - 1..i - 1 + |sep|];
      }
    }
    if Contains(s, sep) {
      var i :| 0 <= i <= |s| - |sep| && OccursAt(s, sep, i);
      assert i != 0;
      assert OccursAt(s[1..], sep, i - 1);
    }
    if Contains(s[1..], sep) {
      var i :| 0 <= i <= |s[1..]| - |sep| && OccursAt(s[1..], sep, i);
      assert OccursAt(s, sep, i + 1);
    }
  }

  /** When `b` starts with `sep` and no occurrence starts inside `a`, the
      head of `a + b` is exactly `a`. */
  lemma {:induction false} SplitHeadAt(a: string, b: string, sep: string)
    requires |sep| > 0
    requires StartsWith(b, sep)
    requires forall i :: 0 <= i < |a| ==> !OccursAt(a + b, sep, i)
    ensures SplitHead(a + b, sep) == a
    decreases |a|
  {
    if |a| == 0 {
      assert a + b == b;
    } else {
      var s := a + b;
      assert !OccursAt(s, sep, 0);
      assert s[1..] == a[1..] + b;
      forall i | 0 <= i < |a| - 1
        ensures !OccursAt(a[1..] + b, sep, i)
      {
        assert !OccursAt(s, sep, i + 1);
        assert s[i + 1..i + 1 + |sep|] == (a[1..] + b)[i..i + |sep|];
      }
      SplitHeadAt(a[1..], b, sep);
      assert [a[0]] + a[1..] == a;
    }
  }

  /** The head before ` [` of `a` followed by a bracketed suffix is `a`,
      whenever `a` has no `[` in it. */
  lemma SplitHeadBeforeBracket(a: string, b: string)
    requires '[' !in a
    requires StartsWith(b, " [")
    ensures SplitHead(a + b, " [") == a
  {
    assert b[0] == b[..2][0] == ' ';
    forall i | 0 <= i < |a|
      ensures !OccursAt(a + b, " [", i)
    {
      if i + 1 < |a| {
        assert (a + b)[i + 1] == a[i + 1];
        assert a[i + 1] in a;
      } else {
        assert (a + b)[i + 1] == b[0];
      }
      assert (a + b)[i..i + 2][1] == (a + b)[i + 1];
    }
    SplitHeadAt(a, b, " [");
  }

  /** `s.split(c)[-1]`: everything after the last occurrence of `c`, or the
      whole string when `c` does not occur. */
  function LastSegment(s: string, c: char): (r: string)
    ensures |r| <= |s| && r == s[|s| - |r|..]
    ensures c !in r
    ensures |r| < |s| ==> s[|s| - |r| - 1] == c
  {
    if |s| == 0 then []
    else if s[|s| - 1] == c then []
    else LastSegment(s[..|s| - 1], c) + [s[|s| - 1]]
  }

  /** The last segment of `a + [c] + b` is `b` when `b` has no `c`. */
  lemma {:induction false} LastSegmentAfter(a: string, c: char, b: string)
    requires c !in b
    ensures LastSegment(a + [c] + b, c) == b
    decreases |b|
  {
    var s := a + [c] + b;
    if |b| == 0 {
      assert s[|s| - 1] == c;
    } else {
      var last := b[|b| - 1];
      assert last in b;
      assert s[..|s| - 1] == a + [c] + b[..|b| - 1];
      assert c !in b[..|b| - 1] by {
        assert forall k :: 0 <= k < |b| - 1 ==> b[..|b| - 1][k] == b[k];
      }
      LastSegmentAfter(a, c, b[..|b| - 1]);
      assert b[..|b| - 1] + [last] == b;
    }
  }
}
