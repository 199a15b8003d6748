/** String primitives the preprocessor relies on: substring search as
    `str::contains` and the regex scan use it, `str::replace`, and two small
    readers used to read a rendered widget back. */
module Text {

  datatype Option<+T> = None | Some(value: T) {
    predicate IsFailure() { None? }

    function PropagateFailure<U>(): Option<U>
      requires None?
    {
      None
    }

    function Extract(): T
      requires Some?
    {
      value
    }
  }

  /** `pat` occurs in `s` starting at index `i`. */
  predicate At(s: string, pat: string, i: nat) {
    i + |pat| <= |s| && s[i..i + |pat|] == pat
  }

  /** `str::contains`. */
  predicate Contains(s: string, pat: string) {
    exists i :: 0 <= i <= |s| && At(s, pat, i)
  }

  /** The first occurrence of `pat` in `s` at or after `from`. */
  function FindFrom(s: string, pat: string, from: nat): (r: Option<nat>)
    ensures r.Some? ==> from <= r.value && r.value + |pat| <= |s|
    decreases |s| - from
  {
    if from + |pat| > |s| then None
    else if At(s, pat, from) then Some(from)
    else FindFrom(s, pat, from + 1)
  }

  /** `FindFrom` finds an occurrence and misses none: none lies before the
      one it finds, and there is none at all when it finds nothing. */
  lemma {:induction false} FindFromSpec(s: string, pat: string, from: nat)
    ensures var r := FindFrom(s, pat, from);
      r.Some? ==> At(s, pat, r.value) && forall j: nat :: from <= j < r.value ==> !At(s, pat, j)
    ensures FindFrom(s, pat, from).None? ==> forall j: nat :: from <= j ==> !At(s, pat, j)
    decreases |s| - from
  {
    if from + |pat| <= |s| && !At(s, pat, from) {
      FindFromSpec(s, pat, from + 1);
    }
  }

  /** `str::contains` holds exactly when the search from the start finds
      an occurrence. */
  lemma ContainsFinds(s: string, pat: string)
    ensures Contains(s, pat) <==> FindFrom(s, pat, 0).Some?
  {
    FindFromSpec(s, pat, 0);
    if FindFrom(s, pat, 0).Some? {
      var p := FindFrom(s, pat, 0).value;
      assert 0 <= p <= |s| && At(s, pat, p);
    }
  }

  /** `FindFrom` finds the first occurrence at or after `from`. */
  lemma FindFromIs(s: string, pat: string, from: nat, x: nat)
    requires from <= x && At(s, pat, x)
    requires forall j: nat :: from <= j < x ==> !At(s, pat, j)
    ensures FindFrom(s, pat, from) == Some(x)
  {
    FindFromSpec(s, pat, from);
  }

  lemma FindFromNone(s: string, pat: string, from: nat)
    requires forall j: nat :: from <= j ==> !At(s, pat, j)
    ensures FindFrom(s, pat, from) == None
  {
    FindFromSpec(s, pat, from);
  }

  /** Where a text occurs, so does each of its prefixes. */
  lemma AtPrefixOfPattern(s: string, pat: string, front: string, j: nat)
    requires At(s, pat, j) && front <= pat
    ensures At(s, front, j)
  {
    assert s[j..j + |front|] == s[j..j + |pat|][..|front|];
  }

  /** A text that lacks `front` lacks every text that starts with it. */
  lemma LacksExtension(s: string, pat: string, front: string)
    requires !Contains(s, front) && front <= pat
    ensures !Contains(s, pat)
  {
    forall j | 0 <= j <= |s| && At(s, pat, j) ensures false {
      AtPrefixOfPattern(s, pat, front, j);
    }
  }

  /** An occurrence in `y` is an occurrence in `x + y`, shifted by `|x|`. */
  lemma AtShift(x: string, y: string, pat: string, j: nat)
    ensures At(x + y, pat, |x| + j) <==> At(y, pat, j)
  {
    if |x| + j + |pat| <= |x + y| {
      assert (x + y)[|x| + j..|x| + j + |pat|] == y[j..j + |pat|];
    }
  }

  /** An occurrence in `x` is an occurrence in `x + y`. */
  lemma AtPrefix(x: string, y: string, pat: string, j: nat)
    requires At(x, pat, j)
    ensures At(x + y, pat, j)
  {
    assert (x + y)[j..j + |pat|] == x[j..j + |pat|];
  }

  /** A pattern whose first character occurs nowhere else in it does not
      begin inside a text free of it when that text is followed by the
      pattern's first character. */
  lemma {:induction false} HeadBefore(x: string, y: string, pat: string)
    requires pat != [] && pat[0] !in pat[1..]
    requires !Contains(x, pat)
    requires y != [] && y[0] == pat[0]
    ensures forall j: nat :: j < |x| ==> !At(x + y, pat, j)
  {
    forall j: nat | j < |x| ensures !At(x + y, pat, j) {
      if j + |pat| <= |x| {
        assert x[j..j + |pat|] == (x + y)[j..j + |pat|];
        assert !At(x, pat, j);
      } else if j + |pat| <= |x + y| {
        var k := |x| - j;
        assert (x + y)[j..j + |pat|][k] == (x + y)[|x|] == y[0] == pat[0];
        assert pat[k] == pat[1..][k - 1] != pat[0];
      }
    }
  }

  /** A pattern whose last character occurs nowhere else in it does not
      begin inside a text free of it that ends with that character, whatever
      follows. */
  lemma {:induction false} EndsSealed(w: string, y: string, pat: string)
    requires pat != [] && pat[|pat| - 1] !in pat[..|pat| - 1]
    requires !Contains(w, pat)
    requires w != [] && w[|w| - 1] == pat[|pat| - 1]
    ensures forall j: nat :: j < |w| ==> !At(w + y, pat, j)
  {
    forall j: nat | j < |w| ensures !At(w + y, pat, j) {
      if j + |pat| <= |w| {
        assert w[j..j + |pat|] == (w + y)[j..j + |pat|];
        assert !At(w, pat, j);
      } else if j + |pat| <= |w + y| {
        var k := |w| - 1 - j;
        assert (w + y)[j..j + |pat|][k] == (w + y)[|w| - 1] == pat[|pat| - 1];
        assert pat[k] == pat[..|pat| - 1][k];
      }
    }
  }

  /** A pattern whose first character occurs nowhere else in it: the first
      occurrence after a text free of it is the one that follows that text. */
  lemma FindAfterFree(front: string, x: string, pat: string, rest: string)
    requires pat != [] && pat[0] !in pat[1..]
    requires !Contains(x, pat)
    ensures FindFrom(front + (x + (pat + rest)), pat, |front|) == Some(|front| + |x|)
    ensures forall j: nat :: |front| <= j < |front| + |x| ==> !At(front + (x + (pat + rest)), pat, j)
  {
    var tail := x + (pat + rest);
    assert At(pat, pat, 0);
    AtPrefix(pat, rest, pat, 0);
    AtShift(x, pat + rest, pat, 0);
    AtShift(front, tail, pat, |x|);
    HeadBefore(x, pat + rest, pat);
    forall j: nat | |front| <= j < |front| + |x| ensures !At(front + tail, pat, j) {
      AtShift(front, tail, pat, j - |front|);
    }
    FindFromIs(front + tail, pat, |front|, |front| + |x|);
  }

  /** An occurrence inside the middle part is an occurrence in the whole. */
  lemma ContainsIn(pre: string, x: string, post: string, pat: string, i: nat)
    requires At(x, pat, i)
    ensures Contains(pre + x + post, pat)
  {
    AtPrefix(x, post, pat, i);
    AtShift(pre, x + post, pat, i);
    AppendAssoc(pre, x, post);
    assert At(pre + x + post, pat, |pre| + i);
  }

  /** The first occurrence in a text that starts with a stretch free of it. */
  lemma FindFirstFree(x: string, pat: string, rest: string)
    requires pat != [] && pat[0] !in pat[1..]
    requires !Contains(x, pat)
    ensures FindFrom(x + (pat + rest), pat, 0) == Some(|x|)
  {
    assert [] + (x + (pat + rest)) == x + (pat + rest);
    FindAfterFree([], x, pat, rest);
  }

  /** No occurrence after `front` when the rest has none. */
  lemma FindInFree(front: string, rest: string, pat: string)
    requires !Contains(rest, pat)
    ensures FindFrom(front + rest, pat, |front|) == None
  {
    forall j: nat | |front| <= j ensures !At(front + rest, pat, j) {
      AtShift(front, rest, pat, j - |front|);
    }
    FindFromNone(front + rest, pat, |front|);
  }

  /** `str::replace` with a non-empty pattern: every non-overlapping
      occurrence, scanning left to right, is replaced by `rep`. */
  function ReplaceAll(s: string, pat: string, rep: string): string
    requires pat != []
    decreases |s|
  {
    if |s| < |pat| then s
    else if s[..|pat|] == pat then rep + ReplaceAll(s[|pat|..], pat, rep)
    else [s[0]] + ReplaceAll(s[1..], pat, rep)
  }

  /** A prefix in which no occurrence of `pat` starts is copied unchanged. */
  lemma {:induction false} ReplaceKeepsPrefix(x: string, y: string, pat: string, rep: string)
    requires pat != []
    requires forall j: nat :: j < |x| ==> !At(x + y, pat, j)
    ensures ReplaceAll(x + y, pat, rep) == x + ReplaceAll(y, pat, rep)
    decreases |x|
  {
    if x != [] {
      var s := x + y;
      if |s| >= |pat| {
        assert !At(s, pat, 0);
        assert s[..|pat|] != pat;
        assert s[1..] == x[1..] + y;
        forall j: nat | j < |x[1..]| ensures !At(x[1..] + y, pat, j) {
          AtShift([x[0]], x[1..] + y, pat, j);
          assert [x[0]] + (x[1..] + y) == s;
        }
        ReplaceKeepsPrefix(x[1..], y, pat, rep);
        calc {
          ReplaceAll(s, pat, rep);
          [s[0]] + ReplaceAll(x[1..] + y, pat, rep);
          [x[0]] + (x[1..] + ReplaceAll(y, pat, rep));
          { assert [x[0]] + x[1..] == x; }
          x + ReplaceAll(y, pat, rep);
        }
      } else {
        assert ReplaceAll(y, pat, rep) == y;
      }
    } else {
      assert x + y == y;
    }
  }

  /** A prefix free of the pattern's first character is copied unchanged. */
  lemma ReplaceSkips(x: string, y: string, pat: string, rep: string)
    requires pat != [] && pat[0] !in x
    ensures ReplaceAll(x + y, pat, rep) == x + ReplaceAll(y, pat, rep)
  {
    forall j: nat | j < |x| ensures !At(x + y, pat, j) {
      if j + |pat| <= |x + y| {
        assert (x + y)[j..j + |pat|][0] == x[j] != pat[0];
      }
    }
    ReplaceKeepsPrefix(x, y, pat, rep);
  }

  /** An occurrence at the front is replaced. */
  lemma ReplaceHits(y: string, pat: string, rep: string)
    requires pat != []
    ensures ReplaceAll(pat + y, pat, rep) == rep + ReplaceAll(y, pat, rep)
  {
    assert (pat + y)[..|pat|] == pat;
    assert (pat + y)[|pat|..] == y;
  }

  /** A text without the pattern is left as it is. */
  lemma {:induction false} ReplaceAbsent(s: string, pat: string, rep: string)
    requires pat != [] && !Contains(s, pat)
    ensures ReplaceAll(s, pat, rep) == s
  {
    forall j: nat | j < |s| ensures !At(s + [], pat, j) {
      assert s + [] == s;
    }
    ReplaceKeepsPrefix(s, [], pat, rep);
    assert s + [] == s;
  }

  /** Replacing a text that occurs exactly once, with no occurrence
      beginning before it: that occurrence is replaced and nothing else
      changes. */
  lemma ReplaceUnique(front: string, full: string, back: string, rep: string)
    requires full != []
    requires forall j: nat :: j < |front| ==> !At(front + (full + back), full, j)
    requires !Contains(back, full)
    ensures ReplaceAll(front + (full + back), full, rep) == front + (rep + back)
  {
    ReplaceKeepsPrefix(front, full + back, full, rep);
    ReplaceHits(back, full, rep);
    ReplaceAbsent(back, full, rep);
  }

  /** Replacing a text that starts with a marker, in a text where the marker
      occurs only at the front of that one copy: that copy is replaced and
      nothing else changes. */
  lemma ReplaceOnly(pre: string, full: string, post: string, marker: string, rep: string)
    requires marker != [] && marker[0] !in marker[1..] && marker <= full
    requires !Contains(pre, marker) && !Contains(post, marker)
    ensures ReplaceAll(pre + (full + post), full, rep) == pre + (rep + post)
  {
    FindAfterFree([], pre, marker, full[|marker|..] + post);
    assert [] + (pre + (marker + (full[|marker|..] + post))) == pre + (full + post);
    forall j: nat | j < |pre| ensures !At(pre + (full + post), full, j) {
      if At(pre + (full + post), full, j) {
        AtPrefixOfPattern(pre + (full + post), full, marker, j);
      }
    }
    ReplaceKeepsPrefix(pre, full + post, full, rep);
    ReplaceHits(post, full, rep);
    LacksExtension(post, full, marker);
    ReplaceAbsent(post, full, rep);
  }

  /** The rest of `s` after the literal `lit`, when `s` starts with it. */
  function Expect(s: string, lit: string): (r: Option<string>)
    ensures r.Some? ==> |r.value| == |s| - |lit| && s == lit + r.value
  {
    if lit <= s then Some(s[|lit|..]) else None
  }

  lemma ExpectLiteral(lit: string, rest: string)
    ensures Expect(lit + rest, lit) == Some(rest)
  {
    assert lit <= lit + rest;
    assert (lit + rest)[|lit|..] == rest;
  }

  /** Splits `s` at the first `c`: the text before it and the text after it. */
  function ReadUntil(s: string, c: char): (r: Option<(string, string)>)
    ensures r.Some? ==> c !in r.value.0 && s == r.value.0 + [c] + r.value.1
    ensures r.None? <==> c !in s
  {
    if s == [] then None
    else if s[0] == c then Some(([], s[1..]))
    else match ReadUntil(s[1..], c)
      case None => None
      case Some(p) => Some(([s[0]] + p.0, p.1))
  }

  lemma {:induction false} ReadUntilSplits(x: string, c: char, rest: string)
    requires c !in x
    ensures ReadUntil(x + [c] + rest, c) == Some((x, rest))
  {
    var s := x + [c] + rest;
    if x == [] {
      assert s == [c] + rest;
    } else {
      assert s[0] == x[0] != c;
      assert s[1..] == x[1..] + [c] + rest;
      ReadUntilSplits(x[1..], c, rest);
      assert [x[0]] + x[1..] == x;
    }
  }

  /** The concatenation of a list of strings. */
  function Concat(parts: seq<string>): string
  {
    if parts == [] then [] else parts[0] + Concat(parts[1..])
  }

  /** The first `i + 1` parts are the first `i` and then the `i`-th. */
  lemma ConcatTake(parts: seq<string>, i: nat)
    requires i < |parts|
    ensures Concat(parts[..i + 1]) == Concat(parts[..i]) + parts[i]
  {
    assert parts[..i + 1] == parts[..i] + [parts[i]];
    ConcatSnoc(parts[..i], parts[i]);
  }

  lemma SliceFront<T>(xs: seq<T>, k: nat)
    requires k < |xs|
    ensures xs[k..] == [xs[k]] + xs[k + 1..]
  {
  }

  /** A slice cut in three. */
  lemma SliceSplit(s: string, i: nat, j: nat, k: nat, l: nat)
    requires i <= j <= k <= l <= |s|
    ensures s[i..l] == s[i..j] + s[j..k] + s[k..l]
  {
  }

  /** The middle part of a three-part concatenation. */
  lemma SliceMiddle(a: string, b: string, c: string)
    ensures (a + b + c)[|a|..|a| + |b|] == b
  {
  }

  /** The front of a slice is a shorter slice. */
  lemma TakeOfSlice(s: string, i: nat, m: nat, n: nat)
    requires n <= m && i + m <= |s|
    ensures s[i..i + m][..n] == s[i..i + n]
  {
  }

  lemma AppendAssoc<T>(a: seq<T>, b: seq<T>, c: seq<T>)
    ensures a + b + c == a + (b + c)
  {
  }

  lemma ConcatFront(parts: seq<string>, rest: string)
    requires parts != []
    ensures Concat(parts) + rest == parts[0] + (Concat(parts[1..]) + rest)
  {
  }

  lemma {:induction false} ConcatSnoc(parts: seq<string>, last: string)
    ensures Concat(parts + [last]) == Concat(parts) + last
  {
    if parts == [] {
      assert [] + [last] == [last];
    } else {
      assert (parts + [last])[1..] == parts[1..] + [last];
      ConcatSnoc(parts[1..], last);
    }
  }
}
