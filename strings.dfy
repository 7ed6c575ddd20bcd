/**
 * The Rust standard-library string operations the core relies on, on
 * strings as sequences of Unicode scalar values: `char::is_whitespace`,
 * `str::trim`, `str::split(char)`, `[String]::join` and `str::replace`.
 */
module Strings {
  import opened Collections

  /**
   * The Unicode White_Space property: the set `char::is_whitespace`,
   * `str::trim` and the regex class `\s` all use.
   */
  predicate IsWhitespace(c: char) {
    var n := c as int;
    (0x09 <= n <= 0x0D) || n == 0x20 || n == 0x85 || n == 0xA0 || n == 0x1680
    || (0x2000 <= n <= 0x200A) || n == 0x2028 || n == 0x2029 || n == 0x202F
    || n == 0x205F || n == 0x3000
  }

  predicate AllWhitespace(s: string) {
    forall i :: 0 <= i < |s| ==> IsWhitespace(s[i])
  }

  /** `s` with its leading whitespace removed. */
  function TrimStart(s: string): (r: string)
    ensures |r| <= |s| && r == s[|s| - |r|..]
    ensures AllWhitespace(s[..|s| - |r|])
    ensures r == [] || !IsWhitespace(r[0])
  {
    if s != [] && IsWhitespace(s[0]) then
      var r := TrimStart(s[1..]);
      assert s[..|s| - |r|] == [s[0]] + s[1..][..|s| - 1 - |r|];
      r
    else s
  }

  /** `s` with its trailing whitespace removed. */
  function TrimEnd(s: string): (r: string)
    ensures |r| <= |s| && r == s[..|r|]
    ensures AllWhitespace(s[|r|..])
    ensures r == [] || !IsWhitespace(r[|r| - 1])
  {
    if s != [] && IsWhitespace(s[|s| - 1]) then
      var r := TrimEnd(s[..|s| - 1]);
      assert s[|r|..] == s[..|s| - 1][|r|..] + [s[|s| - 1]];
      r
    else s
  }

  /** Where the trimmed part of `s` starts: the length of its leading whitespace. */
  function TrimOffset(s: string): (i: nat)
    ensures i <= |s|
  {
    |s| - |TrimStart(s)|
  }

  /**
   * Rust's `str::trim`: `s` without its leading and trailing whitespace;
   * what is left starts and ends with something else.
   */
  function Trim(s: string): (r: string)
    ensures r == [] || (!IsWhitespace(r[0]) && !IsWhitespace(r[|r| - 1]))
  {
    var t := TrimStart(s);
    var r := TrimEnd(t);
    assert r == [] || r[0] == t[0];
    r
  }

  /** The trimmed string is the part of `s` that starts at `TrimOffset(s)`. */
  lemma TrimSlice(s: string)
    ensures TrimOffset(s) + |Trim(s)| <= |s|
    ensures Trim(s) == s[TrimOffset(s)..TrimOffset(s) + |Trim(s)|]
  {
    var t := TrimStart(s);
    var r := TrimEnd(t);
    assert Trim(s) == r;
    SliceOfSuffix(s, TrimOffset(s), |r|);
  }

  /** What trimming removes, on either side, is whitespace. */
  lemma TrimSurround(s: string)
    ensures TrimOffset(s) + |Trim(s)| <= |s|
    ensures AllWhitespace(s[..TrimOffset(s)])
    ensures AllWhitespace(s[TrimOffset(s) + |Trim(s)|..])
  {
    var t := TrimStart(s);
    var r := TrimEnd(t);
    assert Trim(s) == r;
    SliceOfSuffix(s, TrimOffset(s), |r|);
  }

  lemma SliceOfSuffix<T>(s: seq<T>, i: nat, k: nat)
    requires i + k <= |s|
    ensures s[i..][..k] == s[i..i + k] && s[i..][k..] == s[i + k..]
  {
  }

  lemma {:induction false} TrimStartAfterWhitespace(pre: string, s: string)
    requires AllWhitespace(pre)
    ensures TrimStart(pre + s) == TrimStart(s)
  {
    if pre != [] {
      var u := pre + s;
      var pre' := pre[1..];
      assert u[0] == pre[0];
      assert IsWhitespace(u[0]);
      assert u[1..] == pre' + s;
      assert AllWhitespace(pre') by {
        forall i | 0 <= i < |pre'| ensures IsWhitespace(pre'[i]) {
          assert pre'[i] == pre[i + 1];
        }
      }
      TrimStartAfterWhitespace(pre', s);
    } else {
      assert pre + s == s;
    }
  }

  lemma {:induction false} TrimEndBeforeWhitespace(s: string, post: string)
    requires AllWhitespace(post)
    ensures TrimEnd(s + post) == TrimEnd(s)
  {
    if post != [] {
      assert (s + post)[..|s + post| - 1] == s + post[..|post| - 1];
      TrimEndBeforeWhitespace(s, post[..|post| - 1]);
    } else {
      assert s + post == s;
    }
  }

  lemma {:induction false} TrimStartAppend(s: string, post: string)
    requires !AllWhitespace(s)
    ensures TrimStart(s + post) == TrimStart(s) + post
  {
    if IsWhitespace(s[0]) {
      assert (s + post)[1..] == s[1..] + post;
      TrimStartAppend(s[1..], post);
    }
  }

  /** Surrounding whitespace does not change what `trim` returns. */
  lemma TrimPadded(pre: string, s: string, post: string)
    requires AllWhitespace(pre) && AllWhitespace(post)
    ensures Trim(pre + s + post) == Trim(s)
  {
    assert pre + s + post == pre + (s + post);
    TrimStartAfterWhitespace(pre, s + post);
    if AllWhitespace(s) {
      assert AllWhitespace(s + post);
      assert TrimStart(s + post) == [];
      assert TrimStart(s) == [];
    } else {
      TrimStartAppend(s, post);
      TrimEndBeforeWhitespace(TrimStart(s), post);
    }
  }

  /** Rust's `str::split(sep)`: the pieces between separators, empty ones included. */
  function Split(s: string, sep: char): (r: seq<string>)
    ensures |r| >= 1
    ensures forall k :: 0 <= k < |r| ==> sep !in r[k]
  {
    if s == [] then [[]]
    else
      var rest := Split(s[1..], sep);
      if s[0] == sep then [[]] + rest
      else [[s[0]] + rest[0]] + rest[1..]
  }

  /** Rust's `join(sep)`: the items with `sep` between consecutive ones. */
  function Join(items: seq<string>, sep: string): string
  {
    if |items| == 0 then []
    else if |items| == 1 then items[0]
    else items[0] + sep + Join(items[1..], sep)
  }

  /** Joining the pieces of a split with the separator gives the string back. */
  lemma {:induction false} JoinSplit(s: string, sep: char)
    ensures Join(Split(s, sep), [sep]) == s
  {
    if s != [] {
      var rest := Split(s[1..], sep);
      JoinSplit(s[1..], sep);
      if s[0] == sep {
        assert ([[]] + rest)[1..] == rest;
      } else if |rest| > 1 {
        assert ([[s[0]] + rest[0]] + rest[1..])[1..] == rest[1..];
      }
    }
  }

  lemma {:induction false} SplitSingle(x: string, sep: char)
    requires sep !in x
    ensures Split(x, sep) == [x]
  {
    if x != [] {
      SplitSingle(x[1..], sep);
      assert [x[0]] + x[1..] == x;
    }
  }

  lemma {:induction false} SplitAfterPiece(x: string, sep: char, y: string)
    requires sep !in x
    ensures Split(x + [sep] + y, sep) == [x] + Split(y, sep)
  {
    var s := x + [sep] + y;
    if x == [] {
      assert s == [sep] + y;
      assert s[0] == sep && s[1..] == y;
    } else {
      assert s[0] == x[0] && s[1..] == x[1..] + [sep] + y;
      SplitAfterPiece(x[1..], sep, y);
      assert [x[0]] + x[1..] == x;
    }
  }

  /** Splitting a join of separator-free items gives the items back. */
  lemma {:induction false} SplitJoin(items: seq<string>, sep: char)
    requires |items| >= 1
    requires forall k :: 0 <= k < |items| ==> sep !in items[k]
    ensures Split(Join(items, [sep]), sep) == items
  {
    if |items| == 1 {
      SplitSingle(items[0], sep);
    } else {
      SplitJoin(items[1..], sep);
      SplitAfterPiece(items[0], sep, Join(items[1..], [sep]));
      assert [items[0]] + items[1..] == items;
    }
  }

  /**
   * The non-empty strings of `items`, in order (`filter(|s| !s.is_empty())`).
   * `NonEmptyMultiset` states that each is kept as many times as it
   * occurs; `NonEmptyAppend` and `NonEmptyFirstIndex` that the order is kept.
   */
  function NonEmpty(items: seq<string>): (r: seq<string>)
    ensures forall k :: 0 <= k < |r| ==> r[k] != [] && r[k] in items
    ensures forall x :: x in items && x != [] ==> x in r
  {
    if items == [] then []
    else if items[0] == [] then NonEmpty(items[1..])
    else [items[0]] + NonEmpty(items[1..])
  }

  /** Every non-empty string is kept as many times as it occurs, and the empty one not at all. */
  lemma {:induction false} NonEmptyMultiset(items: seq<string>)
    ensures multiset(NonEmpty(items)) == multiset(items)[[] := 0]
  {
    if items != [] {
      NonEmptyMultiset(items[1..]);
      assert items == [items[0]] + items[1..];
    }
  }

  /** Filtering a concatenation filters each part in place. */
  lemma {:induction false} NonEmptyAppend(a: seq<string>, b: seq<string>)
    ensures NonEmpty(a + b) == NonEmpty(a) + NonEmpty(b)
  {
    if a == [] {
      assert a + b == b;
    } else {
      var head: seq<string> := if a[0] == [] then [] else [a[0]];
      calc {
        NonEmpty(a + b);
        { assert a + b == [a[0]] + (a[1..] + b); }
        NonEmpty([a[0]] + (a[1..] + b));
        { NonEmptyCons(a[0], a[1..] + b); }
        head + NonEmpty(a[1..] + b);
        { NonEmptyAppend(a[1..], b); }
        head + (NonEmpty(a[1..]) + NonEmpty(b));
        (head + NonEmpty(a[1..])) + NonEmpty(b);
        { NonEmptyCons(a[0], a[1..]); assert a == [a[0]] + a[1..]; }
        NonEmpty(a) + NonEmpty(b);
      }
    }
  }

  lemma NonEmptyCons(x: string, xs: seq<string>)
    ensures NonEmpty([x] + xs) == (if x == [] then [] else [x]) + NonEmpty(xs)
  {
    assert ([x] + xs)[0] == x && ([x] + xs)[1..] == xs;
  }

  /** Of two kept strings, the one that occurs first in `items` occurs first in the result. */
  lemma {:induction false} NonEmptyFirstIndex(items: seq<string>, x: string, y: string)
    requires x in items && y in items && x != [] && y != []
    ensures FirstIndex(NonEmpty(items), x) < FirstIndex(NonEmpty(items), y) <==>
            FirstIndex(items, x) < FirstIndex(items, y)
  {
    var r := NonEmpty(items);
    var tail := items[1..];
    if items[0] == [] {
      assert x in tail && y in tail;
      NonEmptyFirstIndex(tail, x, y);
    } else if items[0] != x && items[0] != y {
      assert x in tail && y in tail;
      NonEmptyFirstIndex(tail, x, y);
      assert r[0] == items[0] && r[1..] == NonEmpty(tail);
    }
  }

  lemma {:induction false} NonEmptyAll(items: seq<string>)
    requires forall k :: 0 <= k < |items| ==> items[k] != []
    ensures NonEmpty(items) == items
  {
    if items != [] {
      NonEmptyAll(items[1..]);
    }
  }

  /** `pat` occurs somewhere in `s`. */
  predicate Occurs(pat: string, s: string) {
    exists i :: 0 <= i <= |s| && OccursAt(pat, s, i)
  }

  /** `pat` occurs in `s` starting at index `i`. */
  predicate OccursAt(pat: string, s: string, i: nat) {
    i + |pat| <= |s| && s[i..i + |pat|] == pat
  }

  /** Rust's `str::replace`: non-overlapping occurrences of `pat`, found left to right, replaced. */
  function Replace(s: string, pat: string, rep: string): string
    requires pat != []
  {
    if |s| < |pat| then s
    else if s[..|pat|] == pat then rep + Replace(s[|pat|..], pat, rep)
    else [s[0]] + Replace(s[1..], pat, rep)
  }

  lemma OccursInTail(pat: string, s: string)
    requires s != [] && Occurs(pat, s[1..])
    ensures Occurs(pat, s)
  {
    var i :| 0 <= i <= |s[1..]| && OccursAt(pat, s[1..], i);
    assert s[i + 1..i + 1 + |pat|] == pat;
    assert OccursAt(pat, s, i + 1);
  }

  /** A string without the pattern comes back unchanged. */
  lemma {:induction false} ReplaceAbsent(s: string, pat: string, rep: string)
    requires pat != [] && !Occurs(pat, s)
    ensures Replace(s, pat, rep) == s
  {
    if |s| >= |pat| {
      assert s[..|pat|] != pat by {
        if s[..|pat|] == pat { assert OccursAt(pat, s, 0); }
      }
      if !Occurs(pat, s[1..]) {
        ReplaceAbsent(s[1..], pat, rep);
      } else {
        OccursInTail(pat, s);
      }
    }
  }

  /** A string without the pattern's first character comes back unchanged. */
  lemma ReplaceWithoutLead(s: string, pat: string, rep: string)
    requires pat != [] && pat[0] !in s
    ensures Replace(s, pat, rep) == s
  {
    forall i | 0 <= i <= |s| ensures !OccursAt(pat, s, i) {
      if i + |pat| <= |s| {
        assert s[i..i + |pat|][0] == s[i];
      }
    }
    ReplaceAbsent(s, pat, rep);
  }

  /** Replacement passes over a prefix that cannot start an occurrence. */
  lemma {:induction false} ReplaceAfterPlain(a: string, b: string, pat: string, rep: string)
    requires pat != [] && pat[0] !in a
    ensures Replace(a + b, pat, rep) == a + Replace(b, pat, rep)
  {
    if a != [] {
      var s := a + b;
      if |s| >= |pat| {
        assert s[..|pat|][0] == a[0] != pat[0];
        assert s[1..] == a[1..] + b;
        ReplaceAfterPlain(a[1..], b, pat, rep);
      }
    } else {
      assert a + b == b;
    }
  }

  /** An occurrence right after a plain prefix is replaced, and scanning resumes after it. */
  lemma ReplaceThrough(a: string, pat: string, rest: string, rep: string)
    requires pat != [] && pat[0] !in a
    ensures Replace(a + pat + rest, pat, rep) == a + rep + Replace(rest, pat, rep)
  {
    ReplaceAfterPlain(a, pat + rest, pat, rep);
    assert a + pat + rest == a + (pat + rest);
    assert (pat + rest)[..|pat|] == pat && (pat + rest)[|pat|..] == rest;
  }

  /**
   * A look-alike of the pattern (same first character, which does not
   * reappear in it) after a plain prefix is kept, and scanning resumes
   * after it.
   */
  lemma ReplaceSkip(a: string, q: string, rest: string, pat: string, rep: string)
    requires pat != [] && pat[0] !in a
    requires |q| == |pat| && q != pat && q[0] == pat[0] && pat[0] !in q[1..]
    ensures Replace(a + q + rest, pat, rep) == a + q + Replace(rest, pat, rep)
  {
    ReplaceAfterPlain(a, q + rest, pat, rep);
    assert a + q + rest == a + (q + rest);
    var s := q + rest;
    assert s[..|pat|] == q && s[0] == q[0] && s[1..] == q[1..] + rest;
    ReplaceAfterPlain(q[1..], rest, pat, rep);
    assert q == [q[0]] + q[1..];
  }

  /**
   * Up to the first '<' of its result, a replacement whose text starts with
   * '<' has left the input untouched.
   */
  lemma {:induction false} ReplacePrefixBeforeLt(u: string, pat: string, rep: string, k: nat)
    requires pat != [] && rep != [] && rep[0] == '<'
    requires k <= |Replace(u, pat, rep)| && '<' !in Replace(u, pat, rep)[..k]
    ensures k <= |u| && u[..k] == Replace(u, pat, rep)[..k]
  {
    var o := Replace(u, pat, rep);
    if k > 0 && |u| >= |pat| {
      if u[..|pat|] == pat {
        HeadOfPrefix(o, k);
        assert false;
      } else {
        var tail := Replace(u[1..], pat, rep);
        assert o == [u[0]] + tail;
        assert tail[..k - 1] == o[..k][1..];
        ReplacePrefixBeforeLt(u[1..], pat, rep, k - 1);
      }
    }
  }

  lemma HeadOfPrefix(o: string, k: nat)
    ensures 0 < k <= |o| ==> o[..k][0] == o[0]
  {
  }

  /** Text that starts with '<' and has no other '<' cannot start `q` except at its start. */
  lemma NoOccurrenceAfterLead(rep: string, tail: string, q: string)
    requires |rep| >= 1 && rep[0] == '<' && '<' !in rep[1..]
    requires |q| >= 1 && q[0] == '<'
    requires |rep| >= |q| && rep[..|q|] != q
    requires !Occurs(q, tail)
    ensures !Occurs(q, rep + tail)
  {
    var o := rep + tail;
    forall i | 0 <= i <= |o| ensures !OccursAt(q, o, i) {
      if OccursAt(q, o, i) {
        if i >= |rep| {
          assert tail[i - |rep|..i - |rep| + |q|] == o[i..i + |q|];
          assert OccursAt(q, tail, i - |rep|);
        }
      }
    }
  }

  /**
   * A character put in front of a replacement result can start `q` only
   * if it started `q` in the input as well.
   */
  lemma NoOccurrenceAfterChar(s: string, pat: string, rep: string, q: string)
    requires s != [] && pat != [] && rep != [] && rep[0] == '<'
    requires |q| >= 1 && q[0] == '<' && '<' !in q[1..]
    requires |s| < |q| || s[..|q|] != q
    requires !Occurs(q, Replace(s[1..], pat, rep))
    ensures !Occurs(q, [s[0]] + Replace(s[1..], pat, rep))
  {
    var t := s[1..];
    var tail := Replace(t, pat, rep);
    var o := [s[0]] + tail;
    forall i | 0 <= i <= |o| ensures !OccursAt(q, o, i) {
      if OccursAt(q, o, i) {
        if i == 0 {
          var k := |q| - 1;
          assert tail[..k] == q[1..];
          ReplacePrefixBeforeLt(t, pat, rep, k);
        } else {
          assert tail[i - 1..i - 1 + |q|] == o[i..i + |q|];
          assert OccursAt(q, tail, i - 1);
        }
      }
    }
  }

  lemma OccursInSuffix(q: string, s: string, j: nat)
    requires j <= |s| && Occurs(q, s[j..])
    ensures Occurs(q, s)
  {
    var i :| 0 <= i <= |s[j..]| && OccursAt(q, s[j..], i);
    assert s[i + j..i + j + |q|] == s[j..][i..i + |q|];
    assert OccursAt(q, s, i + j);
  }

  /**
   * Replacing a tag `<...>` by a text that starts with '<' and has no other
   * '<' leaves no occurrence of the pattern, and keeps out any other such
   * tag `q` that was absent and that the replacement text does not start with.
   */
  lemma {:induction false} ReplaceKeepsOut(s: string, pat: string, rep: string, q: string)
    requires |pat| >= 1 && pat[0] == '<' && '<' !in pat[1..]
    requires |rep| >= 1 && rep[0] == '<' && '<' !in rep[1..]
    requires |q| >= 1 && q[0] == '<' && '<' !in q[1..]
    requires |rep| >= |q| && rep[..|q|] != q
    requires q == pat || !Occurs(q, s)
    ensures !Occurs(q, Replace(s, pat, rep))
  {
    if |s| < |pat| {
      if q == pat {
        forall i | 0 <= i <= |s| ensures !OccursAt(q, s, i) { }
      }
    } else if s[..|pat|] == pat {
      var t := s[|pat|..];
      if q != pat && Occurs(q, t) {
        OccursInSuffix(q, s, |pat|);
      }
      ReplaceKeepsOut(t, pat, rep, q);
      NoOccurrenceAfterLead(rep, Replace(t, pat, rep), q);
    } else {
      var t := s[1..];
      if q != pat && Occurs(q, t) {
        OccursInSuffix(q, s, 1);
      }
      ReplaceKeepsOut(t, pat, rep, q);
      if q != pat && |s| >= |q| {
        assert !OccursAt(q, s, 0);
      }
      NoOccurrenceAfterChar(s, pat, rep, q);
    }
  }
}
