/**
 * Text primitives shared by the extractor and the slide emitter: Python's
 * notion of whitespace, `str.replace`, substring containment (`in`),
 * `str.strip()`, the `re.sub(r'\s+', ' ', s)` whitespace collapse and the
 * decimal rendering of a counter.
 */
module Strings {
  import opened Options

  /** Python's `str.isspace()`, which is also what the regex class `\s`
      matches in a str pattern and what `str.strip()` removes. */
  predicate IsSpace(c: char) {
    var n := c as int;
    n == 0x20 || 0x09 <= n <= 0x0D || 0x1C <= n <= 0x1F || n == 0x85 || n == 0xA0 ||
    n == 0x1680 || 0x2000 <= n <= 0x200A || n == 0x2028 || n == 0x2029 ||
    n == 0x202F || n == 0x205F || n == 0x3000
  }

  // ---------------------------------------------------------------------------
  // Prefixes, suffixes and containment

  predicate StartsWith(s: string, p: string) {
    |p| <= |s| && s[..|p|] == p
  }

  predicate EndsWith(s: string, p: string) {
    |p| <= |s| && s[|s| - |p|..] == p
  }

  /** Python's `p in s`. */
  predicate Contains(s: string, p: string)
    decreases |s|
  {
    StartsWith(s, p) || (s != [] && Contains(s[1..], p))
  }

  lemma {:induction false} ContainsAt(s: string, p: string, k: nat)
    requires k <= |s| && StartsWith(s[k..], p)
    ensures Contains(s, p)
  {
    if k > 0 {
      assert s[1..][k - 1..] == s[k..];
      ContainsAt(s[1..], p, k - 1);
    }
  }

  /** A text contains each of its middle parts. */
  lemma ContainsInside(a: string, p: string, b: string)
    ensures Contains(a + p + b, p)
  {
    assert (a + p + b)[|a|..] == p + b;
    ContainsAt(a + p + b, p, |a|);
  }

  lemma ContainsHead(p: string, b: string)
    ensures Contains(p + b, p)
  {
    assert (p + b)[0..] == p + b;
    ContainsAt(p + b, p, 0);
  }

  lemma ContainsLast(a: string, p: string)
    ensures Contains(a + p, p)
  {
    assert (a + p)[|a|..] == p;
    ContainsAt(a + p, p, |a|);
  }

  lemma ConcatAssoc(a: string, b: string, c: string)
    ensures a + b + c == a + (b + c)
  {
  }

  /** An occurrence is found at some position: the converse of ContainsAt. */
  lemma {:induction false} ContainsWitness(s: string, p: string) returns (k: nat)
    requires Contains(s, p)
    ensures k + |p| <= |s| && s[k..k + |p|] == p
  {
    if StartsWith(s, p) {
      k := 0;
    } else {
      var j := ContainsWitness(s[1..], p);
      assert s[1..][j..j + |p|] == s[j + 1..j + 1 + |p|];
      k := j + 1;
    }
  }

  /** A text ends with whatever was appended last. */
  lemma EndsWithLast(a: string, p: string)
    ensures EndsWith(a + p, p)
  {
    assert (a + p)[|a|..] == p;
  }

  /** Containment is transitive: an occurrence inside an occurrence is one. */
  lemma ContainsTrans(s: string, t: string, p: string)
    requires Contains(s, t) && Contains(t, p)
    ensures Contains(s, p)
  {
    var i := ContainsWitness(s, t);
    var j := ContainsWitness(t, p);
    forall m | 0 <= m < |p| ensures s[i + j + m] == p[m] {
      assert p[m] == t[j + m] == s[i + j + m];
    }
    assert s[i + j..][..|p|] == p;
    ContainsAt(s, p, i + j);
  }

  /** A pattern one of whose characters the text lacks cannot occur in it. */
  lemma NotContainsByChar(s: string, p: string, c: char)
    requires c in p && c !in s
    ensures !Contains(s, p)
  {
    if Contains(s, p) {
      var k := ContainsWitness(s, p);
      assert false;
    }
  }

  /** Python's `s.find(p)` as an option: where the first occurrence starts. */
  function IndexOf(s: string, p: string): (r: Option<nat>)
    ensures r.Some? ==> r.value + |p| <= |s| && StartsWith(s[r.value..], p)
    ensures forall k :: 0 <= k <= |s| && (r.None? || k < r.value) ==> !StartsWith(s[k..], p)
    decreases |s|
  {
    if StartsWith(s, p) then Some(0)
    else if s == [] then None
    else
      var r := IndexOf(s[1..], p);
      assert forall k :: 1 <= k <= |s| ==> s[1..][k - 1..] == s[k..];
      if r.Some? then Some(r.value + 1) else None
  }

  /** Python's `s.find(c)` for a single character. */
  function CharIndex(s: string, c: char): (r: Option<nat>)
    ensures r.Some? ==> r.value < |s| && s[r.value] == c && c !in s[..r.value]
    ensures r.None? <==> c !in s
    decreases |s|
  {
    if s == [] then None
    else if s[0] == c then Some(0)
    else
      var r := CharIndex(s[1..], c);
      if r.None? then None
      else
        assert s[..r.value + 1] == [s[0]] + s[1..][..r.value];
        Some(r.value + 1)
  }

  /** The first occurrence of `c` is where it first stands. */
  lemma {:induction false} CharIndexAfter(a: string, c: char, b: string)
    requires c !in a
    ensures CharIndex(a + [c] + b, c) == Some(|a|)
    decreases |a|
  {
    var s := a + [c] + b;
    if a != [] {
      assert s[0] == a[0];
      assert s[1..] == a[1..] + [c] + b;
      CharIndexAfter(a[1..], c, b);
    }
  }

  function Replace(s: string, pat: string, rep: string): string
    requires pat != []
    decreases |s|
  {
    if |s| < |pat| then s
    else if s[..|pat|] == pat then rep + Replace(s[|pat|..], pat, rep)
    else [s[0]] + Replace(s[1..], pat, rep)
  }

  /** Replacing a pattern that does not occur changes nothing. */
  lemma {:induction false} ReplaceAbsent(s: string, pat: string, rep: string)
    requires pat != [] && !Contains(s, pat)
    ensures Replace(s, pat, rep) == s
  {
    if |s| >= |pat| {
      ReplaceAbsent(s[1..], pat, rep);
    }
  }

  /** Either nothing matched, or the replacement text now occurs. */
  lemma {:induction false} ReplaceChangedOrContains(s: string, pat: string, rep: string)
    requires pat != []
    ensures Contains(s, pat) ==> Contains(Replace(s, pat, rep), rep)
    ensures !Contains(s, pat) ==> Replace(s, pat, rep) == s
  {
    if !Contains(s, pat) {
      ReplaceAbsent(s, pat, rep);
    } else if |s| < |pat| {
      var k := ContainsWitness(s, pat);
    } else if s[..|pat|] == pat {
      ContainsAt(rep + Replace(s[|pat|..], pat, rep), rep, 0);
    } else {
      ReplaceChangedOrContains(s[1..], pat, rep);
      var r := Replace(s[1..], pat, rep);
      var k := ContainsWitness(r, rep);
      assert ([s[0]] + r)[k + 1..][..|rep|] == r[k..k + |rep|];
      ContainsAt([s[0]] + r, rep, k + 1);
    }
  }

  /** A character absent from both the text and the replacement stays absent. */
  lemma {:induction false} ReplaceKeepsAbsent(s: string, pat: string, rep: string, c: char)
    requires pat != [] && c !in s && c !in rep
    ensures c !in Replace(s, pat, rep)
  {
    if |s| >= |pat| {
      ReplaceKeepsAbsent(s[|pat|..], pat, rep, c);
      ReplaceKeepsAbsent(s[1..], pat, rep, c);
    }
  }

  /** Replacing a one-character pattern by text without it removes it entirely. */
  lemma {:induction false} ReplaceCharGone(s: string, c: char, rep: string)
    requires c !in rep
    ensures c !in Replace(s, [c], rep)
  {
    if |s| >= 1 {
      ReplaceCharGone(s[1..], c, rep);
    }
  }

  /** A one-character replacement works character by character, so it
      distributes over concatenation. */
  lemma {:induction false} ReplaceCharConcat(a: string, b: string, c: char, rep: string)
    ensures Replace(a + b, [c], rep) == Replace(a, [c], rep) + Replace(b, [c], rep)
  {
    if a == [] {
      assert a + b == b;
    } else {
      assert (a + b)[1..] == a[1..] + b;
      ReplaceCharConcat(a[1..], b, c, rep);
    }
  }

  /** Where the text differs from the pattern at some position `k`, no
      occurrence starts it and its first character is copied. */
  lemma ReplaceStep(s: string, pat: string, rep: string, k: nat)
    requires pat != [] && k < |s| && k < |pat| && s[k] != pat[k]
    ensures Replace(s, pat, rep) == [s[0]] + Replace(s[1..], pat, rep)
  {
    if |s| < |pat| {
      assert s == [s[0]] + s[1..];
    } else {
      assert s[..|pat|][k] == s[k];
    }
  }

  lemma {:induction false} ReplacePassesPlain(pre: string, t: string, pat: string, rep: string)
    requires pat != [] && pat[0] !in pre
    ensures Replace(pre + t, pat, rep) == pre + Replace(t, pat, rep)
    decreases |pre|
  {
    if pre == [] {
      assert pre + t == t;
    } else {
      var s := pre + t;
      assert s[0] == pre[0] && s[1..] == pre[1..] + t;
      assert pat[0] !in pre[1..];
      ReplaceStep(s, pat, rep, 0);
      ReplacePassesPlain(pre[1..], t, pat, rep);
      ConcatAssoc([pre[0]], pre[1..], Replace(t, pat, rep));
      assert [pre[0]] + pre[1..] == pre;
    }
  }

  /** A leading occurrence is replaced. */
  lemma ReplaceAtStart(pat: string, rep: string, t: string)
    requires pat != []
    ensures Replace(pat + t, pat, rep) == rep + Replace(t, pat, rep)
  {
    var s := pat + t;
    assert s[..|pat|] == pat && s[|pat|..] == t;
  }

  /** An occurrence with no earlier start of the pattern before it is replaced. */
  lemma ReplaceOpeningAt(pre: string, post: string, pat: string, rep: string)
    requires pat != [] && pat[0] !in pre
    ensures Replace(pre + pat + post, pat, rep) == pre + (rep + Replace(post, pat, rep))
  {
    assert pre + pat + post == pre + (pat + post);
    ReplacePassesPlain(pre, pat + post, pat, rep);
    ReplaceAtStart(pat, rep, post);
  }

  /** A text whose first character differs from the pattern's does not start with it. */
  lemma HeadMismatch(s: string, p: string)
    requires s != [] && p != [] && s[0] != p[0]
    ensures !StartsWith(s, p)
  {
    if |p| <= |s| {
      assert s[..|p|][0] == s[0];
    }
  }

  /** An occurrence in `a + t` lies in `t` when `u` does not occur in `a`
      and does not hold the last character of `a`. */
  lemma PastPrefix(a: string, t: string, u: string)
    requires a != [] && Contains(a + t, u) && !Contains(a, u) && a[|a| - 1] !in u
    ensures Contains(t, u)
  {
    var q := ContainsSplit(a, t, u);
    if q + |u| <= |a| {
      assert a[q..][..|u|] == (a + t)[q..q + |u|];
      ContainsAt(a, u, q);
    } else if q < |a| {
      CutAfterChar(a, t, u, q);
    }
  }

  /** The part past the cut of an occurrence that straddles it starts the
      text after the cut, and holds no character the tail of `u` lacks. */
  lemma StraddleTail(a: string, w: string, u: string, q: nat, c: char)
    requires q < |a| < q + |u| <= |a + w| && (a + w)[q..q + |u|] == u && c !in u[1..]
    ensures StartsWith(w, u[|a| - q..]) && c !in u[|a| - q..]
  {
    assert u[|a| - q..] == u[1..][|a| - q - 1..];
    assert w[..|u| - (|a| - q)] == (a + w)[|a|..q + |u|];
  }

  /** An occurrence that straddles a cut holds the last character before it. */
  lemma CutAfterChar(a: string, d: string, u: string, q: nat)
    requires q < |a| < q + |u| <= |a + d| && (a + d)[q..q + |u|] == u
    ensures a[|a| - 1] in u
  {
    assert u[|a| - 1 - q] == a[|a| - 1];
  }

  /** A text with a character in front starts with `u` only if the rest
      starts with the tail of `u`. */
  lemma ConsPrefix(c: char, w: string, u: string)
    requires u != [] && StartsWith([c] + w, u)
    ensures c == u[0] && StartsWith(w, u[1..])
  {
    assert w[..|u| - 1] == ([c] + w)[1..|u|];
  }

  /** A text that differs from the pattern at some position `k` does not start with it. */
  lemma MismatchAt(s: string, p: string, k: nat)
    requires k < |s| && k < |p| && s[k] != p[k]
    ensures !StartsWith(s, p)
  {
    if |p| <= |s| {
      assert s[..|p|][k] == s[k];
    }
  }

  /** A word that holds the pattern's first character only at its head is
      copied through when the text differs from the pattern at some
      position `k`. */
  lemma ReplaceSkipsWord(u: string, w: string, pat: string, rep: string, k: nat)
    requires pat != [] && u != [] && pat[0] !in u[1..]
    requires k < |u + w| && k < |pat| && (u + w)[k] != pat[k]
    ensures Replace(u + w, pat, rep) == u + Replace(w, pat, rep)
  {
    var s := u + w;
    assert s[0] == u[0] && s[1..] == u[1..] + w;
    ReplaceStep(s, pat, rep, k);
    ReplacePassesPlain(u[1..], w, pat, rep);
    ConcatAssoc([u[0]], u[1..], Replace(w, pat, rep));
    assert [u[0]] + u[1..] == u;
  }

  /** Replacement distributes over a cut that no occurrence can straddle:
      one whose right side starts with a character that occurs in the
      pattern at most at its head. */
  lemma {:induction false} ReplaceSplit(a: string, b: string, pat: string, rep: string)
    requires pat != [] && b != [] && b[0] !in pat[1..]
    ensures Replace(a + b, pat, rep) == Replace(a, pat, rep) + Replace(b, pat, rep)
    decreases |a|
  {
    var s := a + b;
    if a == [] {
      assert s == b;
    } else if |s| < |pat| {
      assert Replace(a, pat, rep) == a && Replace(b, pat, rep) == b;
    } else {
      if |a| < |pat| {
        MatchAcrossCut(a, b, pat);
      }
      if s[..|pat|] == pat {
        assert |pat| <= |a| && a[..|pat|] == pat;
        assert s[|pat|..] == a[|pat|..] + b;
        ReplaceSplit(a[|pat|..], b, pat, rep);
        SplitAtMatch(a, b, pat, rep);
      } else {
        assert s[1..] == a[1..] + b;
        ReplaceSplit(a[1..], b, pat, rep);
        SplitNoMatch(a, b, pat, rep);
      }
    }
  }

  /** The step of `ReplaceSplit` where the left side starts with the pattern. */
  lemma SplitAtMatch(a: string, b: string, pat: string, rep: string)
    requires pat != [] && |pat| <= |a| && a[..|pat|] == pat
    requires Replace(a[|pat|..] + b, pat, rep) == Replace(a[|pat|..], pat, rep) + Replace(b, pat, rep)
    ensures Replace(a + b, pat, rep) == Replace(a, pat, rep) + Replace(b, pat, rep)
  {
    var s := a + b;
    assert s[..|pat|] == pat && s[|pat|..] == a[|pat|..] + b;
    ConcatAssoc(rep, Replace(a[|pat|..], pat, rep), Replace(b, pat, rep));
  }

  /** The step of `ReplaceSplit` where no occurrence starts the text. */
  lemma SplitNoMatch(a: string, b: string, pat: string, rep: string)
    requires pat != [] && a != [] && |pat| <= |a + b| && (a + b)[..|pat|] != pat
    requires Replace(a[1..] + b, pat, rep) == Replace(a[1..], pat, rep) + Replace(b, pat, rep)
    ensures Replace(a + b, pat, rep) == Replace(a, pat, rep) + Replace(b, pat, rep)
  {
    var s := a + b;
    assert s[0] == a[0] && s[1..] == a[1..] + b;
    if |a| >= |pat| {
      assert a[..|pat|] == s[..|pat|];
    } else {
      assert Replace(a[1..], pat, rep) == a[1..];
      assert a == [a[0]] + a[1..];
    }
    assert Replace(a, pat, rep) == [a[0]] + Replace(a[1..], pat, rep);
    ConcatAssoc([a[0]], Replace(a[1..], pat, rep), Replace(b, pat, rep));
  }

  /** An occurrence that straddles a cut puts the right side's first
      character in the pattern's tail. */
  lemma MatchAcrossCut(a: string, b: string, pat: string)
    requires 0 < |a| < |pat| <= |a + b|
    ensures (a + b)[..|pat|] == pat ==> b[0] in pat[1..]
  {
    if (a + b)[..|pat|] == pat {
      assert pat[|a|] == (a + b)[|a|] == b[0];
      assert pat[1..][|a| - 1] == pat[|a|];
    }
  }

  /** A prefix of the result without the replacement's first character was
      already a prefix of the input. */
  lemma {:induction false} ReplacePrefixBack(s: string, pat: string, rep: string, u: string)
    requires pat != [] && rep != [] && rep[0] !in u
    requires StartsWith(Replace(s, pat, rep), u)
    ensures StartsWith(s, u)
    decreases |u|
  {
    if u != [] && |s| >= |pat| {
      assert Replace(s, pat, rep)[0] == u[0];
      assert s[..|pat|] != pat;
      var r := Replace(s[1..], pat, rep);
      assert StartsWith(r, u[1..]) by {
        assert r[..|u| - 1] == Replace(s, pat, rep)[1..|u|];
      }
      ReplacePrefixBack(s[1..], pat, rep, u[1..]);
      assert s[..|u|] == [s[0]] + s[1..][..|u| - 1];
    }
  }

  /** An occurrence in a suffix is an occurrence. */
  lemma ContainsSuffix(s: string, j: nat, u: string)
    requires j <= |s| && Contains(s[j..], u)
    ensures Contains(s, u)
  {
    var k := ContainsWitness(s[j..], u);
    assert s[j + k..][..|u|] == s[j..][k..k + |u|];
    ContainsAt(s, u, j + k);
  }

  /** An occurrence in `a + b` starts inside `a`, or `b` contains one. */
  lemma ContainsSplit(a: string, b: string, u: string) returns (k: nat)
    requires Contains(a + b, u)
    ensures k + |u| <= |a + b| && (a + b)[k..k + |u|] == u
    ensures k >= |a| ==> Contains(b, u)
  {
    k := ContainsWitness(a + b, u);
    if k >= |a| {
      assert b[k - |a|..][..|u|] == (a + b)[k..k + |u|];
      ContainsAt(b, u, k - |a|);
    }
  }

  /** A first character and a prefix of the rest make a prefix. */
  lemma HeadAndTail(s: string, u: string)
    requires u != [] && s != [] && s[0] == u[0] && StartsWith(s[1..], u[1..])
    ensures StartsWith(s, u)
  {
    assert s[..|u|] == [s[0]] + s[1..][..|u| - 1];
  }

  /** Where the input does not start with the pattern, the result does not
      either, as long as the replacement cannot continue it. */
  lemma NoHeadMatch(s: string, pat: string, rep: string)
    requires pat != [] && rep != [] && rep[0] !in pat[1..]
    requires s != [] && !StartsWith(s, pat)
    ensures !StartsWith([s[0]] + Replace(s[1..], pat, rep), pat)
  {
    var r := Replace(s[1..], pat, rep);
    if StartsWith([s[0]] + r, pat) {
      assert StartsWith(r, pat[1..]) by {
        assert r[..|pat| - 1] == ([s[0]] + r)[1..|pat|];
      }
      ReplacePrefixBack(s[1..], pat, rep, pat[1..]);
      HeadAndTail(s, pat);
      assert false;
    }
  }

  /** A replacement whose text cannot start or continue an occurrence of `u`
      does not create one. */
  lemma {:induction false} ReplaceNoNew(s: string, pat: string, rep: string, u: string)
    requires pat != [] && rep != [] && u != []
    requires u[0] !in rep && rep[0] !in u
    ensures Contains(Replace(s, pat, rep), u) ==> Contains(s, u)
    decreases |s|
  {
    if |s| >= |pat| && Contains(Replace(s, pat, rep), u) {
      if s[..|pat|] == pat {
        var rest := Replace(s[|pat|..], pat, rep);
        var k := ContainsSplit(rep, rest, u);
        assert (rep + rest)[k] == u[0];
        assert k >= |rep|;
        ReplaceNoNew(s[|pat|..], pat, rep, u);
        ContainsSuffix(s, |pat|, u);
      } else {
        var rest := Replace(s[1..], pat, rep);
        ReplaceNoNew(s[1..], pat, rep, u);
        var k := ContainsSplit([s[0]], rest, u);
        if k >= 1 {
          ContainsSuffix(s, 1, u);
        } else {
          assert StartsWith(rest, u[1..]) by {
            assert rest[..|u| - 1] == ([s[0]] + rest)[1..|u|];
          }
          ReplacePrefixBack(s[1..], pat, rep, u[1..]);
          HeadAndTail(s, u);
          ContainsAt(s, u, 0);
        }
      }
    }
  }

  /** No proper end of `rep` is a proper start of `u`: an occurrence of `u`
      cannot begin inside `rep` and run past its end. */
  predicate NoTailOverlap(rep: string, u: string) {
    forall j :: 0 < j < |u| && j <= |rep| ==> rep[|rep| - j..] != u[..j]
  }

  /** Enough for NoTailOverlap: the last character of `rep` can only end `u`. */
  lemma TailOverlapByLast(rep: string, u: string)
    requires rep != [] && u != [] && rep[|rep| - 1] !in u[..|u| - 1]
    ensures NoTailOverlap(rep, u)
  {
    forall j | 0 < j < |u| && j <= |rep| ensures rep[|rep| - j..] != u[..j] {
      assert rep[|rep| - j..][j - 1] == rep[|rep| - 1];
      assert u[..j][j - 1] == u[..|u| - 1][j - 1];
    }
  }

  /** Enough for NoTailOverlap: the first character of `u` is missing from
      the last `|u| - 1` characters of `rep`. */
  lemma TailOverlapByHead(rep: string, u: string)
    requires 0 < |u| <= |rep| + 1 && u[0] !in rep[|rep| - (|u| - 1)..]
    ensures NoTailOverlap(rep, u)
  {
    forall j | 0 < j < |u| && j <= |rep| ensures rep[|rep| - j..] != u[..j] {
      assert rep[|rep| - j..][0] == rep[|rep| - (|u| - 1)..][|u| - 1 - j];
      assert u[..j][0] == u[0];
    }
  }

  /** Enough for NoTailOverlap of a short `rep`: its first character occurs
      nowhere else in it and `u` does not start with all of it. */
  lemma TailOverlapShort(rep: string, u: string)
    requires rep != [] && u != [] && u[0] !in rep[1..] && !StartsWith(u, rep)
    ensures NoTailOverlap(rep, u)
  {
    forall j | 0 < j < |u| && j <= |rep| ensures rep[|rep| - j..] != u[..j] {
      if j < |rep| {
        assert rep[|rep| - j..][0] == rep[1..][|rep| - j - 1];
        assert u[..j][0] == u[0];
      } else {
        assert rep[|rep| - j..] == rep;
      }
    }
  }

  /** A text ending in `b` overlaps `u` only the way `b` does, when `u`
      does not contain `b`. */
  lemma TailOverlapConcat(a: string, b: string, u: string)
    requires NoTailOverlap(b, u) && !Contains(u, b)
    ensures NoTailOverlap(a + b, u)
  {
    var rep := a + b;
    forall j | 0 < j < |u| && j <= |rep| ensures rep[|rep| - j..] != u[..j] {
      if j <= |b| {
        assert rep[|rep| - j..] == b[|b| - j..];
      } else if rep[|rep| - j..] == u[..j] {
        assert u[j - |b|..][..|b|] == rep[|a|..] == b;
        ContainsAt(u, b, j - |b|);
      }
    }
  }

  /** What starts inside `rep` and runs past its end is not `u`. */
  lemma NoStraddle(rep: string, rest: string, u: string, k: nat)
    requires NoTailOverlap(rep, u) && k < |rep| < k + |u| <= |rep + rest|
    ensures (rep + rest)[k..k + |u|] != u
  {
    var j := |rep| - k;
    assert rep[|rep| - j..] != u[..j];
    assert (rep + rest)[k..k + |u|][..j] == rep[|rep| - j..];
  }

  /** A replacement that cannot host an occurrence of `u`, cannot be entered
      by one from the left and cannot be left by one to the right does not
      create an occurrence of `u`. */
  lemma {:induction false} ReplaceNoNewAcross(s: string, pat: string, rep: string, u: string)
    requires pat != [] && rep != [] && u != []
    requires rep[0] !in u[1..] && NoTailOverlap(rep, u) && !Contains(rep, u)
    ensures Contains(Replace(s, pat, rep), u) ==> Contains(s, u)
    decreases |s|
  {
    if |s| >= |pat| && Contains(Replace(s, pat, rep), u) {
      if s[..|pat|] == pat {
        var rest := Replace(s[|pat|..], pat, rep);
        var k := ContainsSplit(rep, rest, u);
        if k + |u| <= |rep| {
          assert rep[k..][..|u|] == (rep + rest)[k..k + |u|];
          ContainsAt(rep, u, k);
        } else if k < |rep| {
          NoStraddle(rep, rest, u, k);
        }
        ReplaceNoNewAcross(s[|pat|..], pat, rep, u);
        ContainsSuffix(s, |pat|, u);
      } else {
        var rest := Replace(s[1..], pat, rep);
        ReplaceNoNewAcross(s[1..], pat, rep, u);
        var k := ContainsSplit([s[0]], rest, u);
        if k >= 1 {
          ContainsSuffix(s, 1, u);
        } else {
          assert StartsWith(rest, u[1..]) by {
            assert rest[..|u| - 1] == ([s[0]] + rest)[1..|u|];
          }
          ReplacePrefixBack(s[1..], pat, rep, u[1..]);
          HeadAndTail(s, u);
          ContainsAt(s, u, 0);
        }
      }
    }
  }

  /** Putting text after each occurrence of `pat` keeps every occurrence of
      a `u` that the pattern can neither start inside nor end inside. */
  lemma {:induction false} ReplaceKeepsContains(s: string, pat: string, ins: string, u: string)
    requires pat != [] && pat[0] !in u && pat[|pat| - 1] !in u && Contains(s, u)
    ensures Contains(Replace(s, pat, pat + ins), u)
    decreases |s|
  {
    var rep := pat + ins;
    var k := ContainsWitness(s, u);
    if k == 0 {
      assert s == u + s[|u|..];
      ReplacePassesPlain(u, s[|u|..], pat, rep);
      ContainsHead(u, Replace(s[|u|..], pat, rep));
    } else if |s| >= |pat| && s[..|pat|] == pat {
      var rest := s[|pat|..];
      var r := Replace(rest, pat, rep);
      assert Replace(s, pat, rep) == pat + (ins + r);
      if k >= |pat| {
        ContainsAt(rest, u, k - |pat|) by {
          assert rest[k - |pat|..][..|u|] == s[k..k + |u|];
        }
        ReplaceKeepsContains(rest, pat, ins, u);
        assert (pat + (ins + r))[|rep|..] == r;
        ContainsSuffix(pat + (ins + r), |rep|, u);
      } else if k + |u| <= |pat| {
        ContainsAt(pat, u, k) by {
          assert pat[k..][..|u|] == s[k..k + |u|];
        }
        ContainsHead(pat, ins + r);
        ContainsTrans(pat + (ins + r), pat, u);
      } else {
        LastCharInside(s, pat, u, k);
      }
    } else if |s| >= |pat| {
      ContainsAt(s[1..], u, k - 1) by {
        assert s[1..][k - 1..][..|u|] == s[k..k + |u|];
      }
      ReplaceKeepsContains(s[1..], pat, ins, u);
      var r := Replace(s[1..], pat, rep);
      assert ([s[0]] + r)[1..] == r;
      ContainsSuffix([s[0]] + r, 1, u);
    } else {
      ContainsAt(s, u, k);
    }
  }

  /** An occurrence of `u` that starts inside a leading `pat` and reaches
      its end holds the pattern's last character. */
  lemma LastCharInside(s: string, pat: string, u: string, k: nat)
    requires pat != [] && |pat| <= |s| && s[..|pat|] == pat
    requires k < |pat| <= k + |u| <= |s| && s[k..k + |u|] == u
    ensures pat[|pat| - 1] in u
  {
    assert u[|pat| - 1 - k] == s[k..k + |u|][|pat| - 1 - k] == s[..|pat|][|pat| - 1];
  }

  /** A longer replacement never shortens the text, and lengthens it where
      the pattern occurs. */
  lemma {:induction false} ReplaceGrows(s: string, pat: string, rep: string)
    requires pat != [] && |rep| > |pat|
    ensures |Replace(s, pat, rep)| >= |s|
    ensures Contains(s, pat) ==> |Replace(s, pat, rep)| > |s|
    decreases |s|
  {
    if |s| < |pat| {
      if Contains(s, pat) {
        var k := ContainsWitness(s, pat);
      }
    } else if s[..|pat|] == pat {
      ReplaceGrows(s[|pat|..], pat, rep);
    } else {
      ReplaceGrows(s[1..], pat, rep);
    }
  }

  /** Replacing `w` followed by the mark `c` with `w` leaves such a pair only
      where the input had `w` followed by the mark twice. */
  lemma {:induction false} ReplaceDropsMark(s: string, w: string, c: char)
    requires w != [] && w[0] !in w[1..] && c != w[0]
    ensures Contains(Replace(s, w + [c], w), w + [c]) ==> Contains(s, w + [c, c])
    decreases |s|
  {
    var pat := w + [c];
    if |s| >= |pat| && Contains(Replace(s, pat, w), pat) {
      if s[..|pat|] == pat {
        ReplaceDropsMark(s[|pat|..], w, c);
        MarkAfterWord(s, w, c);
      } else {
        var r := Replace(s[1..], pat, w);
        assert pat[1..] == w[1..] + [c];
        NoHeadMatch(s, pat, w);
        var k := ContainsSplit([s[0]], r, pat);
        assert k >= 1;
        ReplaceDropsMark(s[1..], w, c);
        ContainsSuffix(s, 1, w + [c, c]);
      }
    } else if |s| < |pat| && Contains(s, pat) {
      var k := ContainsWitness(s, pat);
    }
  }

  /** The match step of ReplaceDropsMark: `w` is put back, so a new pair can
      only start where it stands, with the next character a mark. */
  lemma MarkAfterWord(s: string, w: string, c: char)
    requires w != [] && w[0] !in w[1..] && c != w[0]
    requires |s| >= |w| + 1 && s[..|w| + 1] == w + [c]
    requires Contains(Replace(s, w + [c], w), w + [c])
    requires Contains(Replace(s[|w| + 1..], w + [c], w), w + [c]) ==> Contains(s[|w| + 1..], w + [c, c])
    ensures Contains(s, w + [c, c])
  {
    var pat := w + [c];
    var rest := s[|pat|..];
    var r := Replace(rest, pat, w);
    assert Replace(s, pat, w) == w + r;
    var k := ContainsSplit(w, r, pat);
    assert (w + r)[k] == w[0];
    if k == 0 {
      assert StartsWith(r, [c]) by {
        assert r[..1] == (w + r)[|w|..|w| + 1];
      }
      ReplacePrefixBack(rest, pat, w, [c]);
      assert s[..|w| + 2] == w + [c, c];
      ContainsAt(s, w + [c, c], 0);
    } else {
      ContainsSuffix(s, |pat|, w + [c, c]);
    }
  }

  // ---------------------------------------------------------------------------
  // Whitespace: re.sub(r'\s+', ' ', s) and str.strip()

  /** The text after the leading run of whitespace. */
  function DropSpaces(s: string): (r: string)
    ensures |r| <= |s|
    ensures r == [] || !IsSpace(r[0])
    ensures forall i :: 0 <= i < |s| - |r| ==> IsSpace(s[i])
  {
    if s != [] && IsSpace(s[0]) then DropSpaces(s[1..]) else s
  }

  /** What is dropped is a prefix. */
  lemma {:induction false} DropSpacesSuffix(s: string)
    ensures DropSpaces(s) == s[|s| - |DropSpaces(s)|..]
    decreases |s|
  {
    if s != [] && IsSpace(s[0]) {
      DropSpacesSuffix(s[1..]);
    }
  }

  /** The text before the trailing run of whitespace. */
  function TrimEnd(s: string): (r: string)
    ensures |r| <= |s| && r == s[..|r|]
    ensures r == [] || !IsSpace(r[|r| - 1])
  {
    if s != [] && IsSpace(s[|s| - 1]) then TrimEnd(s[..|s| - 1]) else s
  }

  /** Python's `str.strip()` with no argument. */
  function Strip(s: string): string {
    TrimEnd(DropSpaces(s))
  }

  /** `re.sub(r'\s+', ' ', s)`: every maximal run of whitespace becomes one space. */
  function SquashSpaces(s: string): string
    decreases |s|
  {
    if s == [] then []
    else if IsSpace(s[0]) then " " + SquashSpaces(DropSpaces(s))
    else [s[0]] + SquashSpaces(s[1..])
  }

  /** `re.sub(r'\s+', ' ', s).strip()`, the normalisation both source files use. */
  function Collapse(s: string): string {
    Strip(SquashSpaces(s))
  }

  /** Every whitespace character is a plain space and none follows another. */
  predicate SingleSpaced(s: string) {
    forall i :: 0 <= i < |s| && IsSpace(s[i]) ==> s[i] == ' ' && (i + 1 < |s| ==> !IsSpace(s[i + 1]))
  }

  /** The shape of normalised text: single spaces between words, no newline,
      nothing to strip at either end. */
  predicate Normalized(s: string) {
    SingleSpaced(s) && (s != [] ==> !IsSpace(s[0]) && !IsSpace(s[|s| - 1]))
  }

  lemma {:induction false} SquashSingleSpaced(s: string)
    ensures SingleSpaced(SquashSpaces(s))
    ensures SquashSpaces(s) != [] && s != [] ==> (IsSpace(SquashSpaces(s)[0]) <==> IsSpace(s[0]))
    decreases |s|
  {
    if s == [] {
    } else if IsSpace(s[0]) {
      var d := DropSpaces(s);
      SquashSingleSpaced(d);
      var t := SquashSpaces(d);
      assert d == [] ==> t == [];
      assert forall i :: 0 < i < |" " + t| ==> (" " + t)[i] == t[i - 1];
    } else {
      SquashSingleSpaced(s[1..]);
      var t := SquashSpaces(s[1..]);
      assert forall i :: 0 < i < |[s[0]] + t| ==> ([s[0]] + t)[i] == t[i - 1];
    }
  }

  lemma SingleSpacedSlice(s: string, a: nat, b: nat)
    requires a <= b <= |s| && SingleSpaced(s)
    ensures SingleSpaced(s[a..b])
  {
    forall i | 0 <= i < b - a && IsSpace(s[a..b][i])
      ensures s[a..b][i] == ' ' && (i + 1 < b - a ==> !IsSpace(s[a..b][i + 1]))
    {
      assert s[a..b][i] == s[a + i];
    }
  }

  /** Collapsing always yields normalised text. */
  lemma CollapseNormalized(s: string)
    ensures Normalized(Collapse(s))
  {
    SquashSingleSpaced(s);
    StripNormalized(SquashSpaces(s));
  }

  /** Stripping single-spaced text leaves normalised text. */
  lemma StripNormalized(q: string)
    requires SingleSpaced(q)
    ensures Normalized(Strip(q))
  {
    var d := DropSpaces(q);
    DropSpacesSuffix(q);
    SingleSpacedSlice(q, |q| - |d|, |q|);
    var t := TrimEnd(d);
    SingleSpacedSlice(d, 0, |t|);
    assert t != [] ==> t[0] == d[0];
  }

  lemma {:induction false} SquashFixesSingleSpaced(s: string)
    requires SingleSpaced(s)
    ensures SquashSpaces(s) == s
    decreases |s|
  {
    if s != [] {
      SingleSpacedSlice(s, 1, |s|);
      if IsSpace(s[0]) {
        DropSpacesSuffix(s);
        assert DropSpaces(s) == s[1..];
      }
      SquashFixesSingleSpaced(s[1..]);
    }
  }

  /** Normalised text is a fixed point of the collapse. */
  lemma CollapseFixesNormalized(s: string)
    requires Normalized(s)
    ensures Collapse(s) == s
  {
    SquashFixesSingleSpaced(s);
  }

  /** Collapsing is idempotent. */
  lemma CollapseIdempotent(s: string)
    ensures Collapse(Collapse(s)) == Collapse(s)
  {
    CollapseNormalized(s);
    CollapseFixesNormalized(Collapse(s));
  }

  /** Collapsing only ever adds plain spaces: a non-space character absent
      from the input stays absent. */
  lemma {:induction false} SquashKeepsAbsent(s: string, c: char)
    requires c !in s && !IsSpace(c)
    ensures c !in SquashSpaces(s)
    decreases |s|
  {
    if s != [] {
      if IsSpace(s[0]) {
        DropSpacesSuffix(s);
        SquashKeepsAbsent(DropSpaces(s), c);
      } else {
        SquashKeepsAbsent(s[1..], c);
      }
    }
  }

  lemma CollapseKeepsAbsent(s: string, c: char)
    requires c !in s && !IsSpace(c)
    ensures c !in Collapse(s)
  {
    SquashKeepsAbsent(s, c);
    var q := SquashSpaces(s);
    var d := DropSpaces(q);
    DropSpacesSuffix(q);
    assert forall x :: x in d ==> x in q;
    var t := TrimEnd(d);
    assert forall x :: x in t ==> x in d;
  }

  // ---------------------------------------------------------------------------
  // ASCII lower case, as far as `str.lower()` matters for the keywords searched

  function LowerChar(c: char): char {
    if 'A' <= c <= 'Z' then (c as int + 32) as char else c
  }

  function Lower(s: string): (r: string)
    ensures |r| == |s| && forall i :: 0 <= i < |s| ==> r[i] == LowerChar(s[i])
  {
    seq(|s|, i requires 0 <= i < |s| => LowerChar(s[i]))
  }

  // ---------------------------------------------------------------------------
  // Decimal rendering of a counter (Python's f-string `{i+1}`)

  function DigitChar(d: nat): (c: char)
    requires d < 10
    ensures '0' <= c <= '9'
  {
    (d + '0' as int) as char
  }

  function NatToString(n: nat): (r: string)
    decreases n
  {
    if n < 10 then [DigitChar(n)] else NatToString(n / 10) + [DigitChar(n % 10)]
  }

  /** Reading decimal digits back, the inverse of NatToString. */
  function ParseDigits(s: string): nat
    decreases |s|
  {
    if s == [] then 0
    else ParseDigits(s[..|s| - 1]) * 10 + (if '0' <= s[|s| - 1] <= '9' then s[|s| - 1] as int - '0' as int else 0)
  }

  /** The counter is printed as a non-empty string of digits, from which it can be read back. */
  lemma {:induction false} NatToStringRoundTrip(n: nat)
    ensures NatToString(n) != []
    ensures forall i :: 0 <= i < |NatToString(n)| ==> '0' <= NatToString(n)[i] <= '9'
    ensures ParseDigits(NatToString(n)) == n
    decreases n
  {
    if n >= 10 {
      NatToStringRoundTrip(n / 10);
      var r := NatToString(n);
      assert r[..|r| - 1] == NatToString(n / 10);
    }
  }
}
