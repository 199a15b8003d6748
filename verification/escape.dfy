/** `html_escape`: five `replace` calls in a fixed order, ampersand first.
    Its partner `HtmlUnescape` undoes the same replacements in reverse order. */
module Escape {
  import opened Text

  /** The characters `html_escape` replaces, in the order it replaces them. */
  const Specials: seq<char> := ['&', '<', '>', '"', '\'']
  /** The entity that replaces each of them. */
  const Entities: seq<string> := ["&amp;", "&lt;", "&gt;", "&quot;", "&#39;"]

  function HtmlEscape(s: string): string {
    ReplaceAll(ReplaceAll(ReplaceAll(ReplaceAll(ReplaceAll(
      s, "&", "&amp;"), "<", "&lt;"), ">", "&gt;"), "\"", "&quot;"), "'", "&#39;")
  }

  /** The same replacements reversed and undone in reverse order. */
  function HtmlUnescape(s: string): string {
    ReplaceAll(ReplaceAll(ReplaceAll(ReplaceAll(ReplaceAll(
      s, "&#39;", "'"), "&quot;", "\""), "&gt;", ">"), "&lt;", "<"), "&amp;", "&")
  }

  /** The position of `c` in `Specials`, or 5 when it is not special. */
  function SpecialIndex(c: char): (k: nat)
    ensures k <= 5
    ensures k < 5 ==> Specials[k] == c
    ensures k == 5 <==> c !in Specials
  {
    if c == '&' then 0
    else if c == '<' then 1
    else if c == '>' then 2
    else if c == '"' then 3
    else if c == '\'' then 4
    else 5
  }

  /** What `c` has become once the first `k` replacements have been made. */
  function Token(c: char, k: nat): string {
    var j := SpecialIndex(c);
    if j < k && j < 5 then Entities[j] else [c]
  }

  /** The text after the first `k` replacements, defined character by
      character: the reference the chain of `replace` calls is checked
      against. */
  function EscapedUpTo(s: string, k: nat): string {
    if s == [] then [] else Token(s[0], k) + EscapedUpTo(s[1..], k)
  }

  /** Facts about the five entities the proofs below rely on. */
  lemma EntityFacts()
    ensures forall j :: 0 <= j < 5 ==>
      |Entities[j]| >= 4 && Entities[j][0] == '&' && '&' !in Entities[j][1..]
    ensures forall j, k :: 0 <= j < 5 && 1 <= k < 5 ==> Specials[k] !in Entities[j]
    ensures forall j, m :: 0 <= j < 5 && 0 <= m < 5 && j != m ==> Entities[j][1] != Entities[m][1]
  {
  }

  lemma {:induction false} EscapedUpToZero(s: string)
    ensures EscapedUpTo(s, 0) == s
  {
    if s != [] {
      EscapedUpToZero(s[1..]);
      assert [s[0]] + s[1..] == s;
    }
  }

  /** Replacing the `k`-th special character in the text escaped up to `k`
      gives the text escaped up to `k + 1`. */
  lemma {:induction false} EscapeStep(s: string, k: nat)
    requires k < 5
    ensures ReplaceAll(EscapedUpTo(s, k), [Specials[k]], Entities[k]) == EscapedUpTo(s, k + 1)
  {
    var pat, rep := [Specials[k]], Entities[k];
    if s != [] {
      var t, rest := Token(s[0], k), EscapedUpTo(s[1..], k);
      var j := SpecialIndex(s[0]);
      EscapeStep(s[1..], k);
      if j < k {
        EntityFacts();
        ReplaceSkips(t, rest, pat, rep);
      } else if j == k {
        ReplaceHits(rest, pat, rep);
      } else {
        ReplaceSkips(t, rest, pat, rep);
      }
    }
  }

  /** An entity is never mistaken for a different entity. */
  lemma EntityMisses(j: nat, m: nat, y: string)
    requires j < 5 && m < 5 && j != m
    ensures forall p: nat :: p < |Entities[j]| ==> !At(Entities[j] + y, Entities[m], p)
  {
    EntityFacts();
    var e, pat := Entities[j], Entities[m];
    forall p: nat | p < |e| ensures !At(e + y, pat, p) {
      if p + |pat| <= |e + y| {
        if p == 0 {
          assert (e + y)[p..p + |pat|][1] == e[1] != pat[1];
        } else {
          assert e[p] == e[1..][p - 1];
          assert (e + y)[p..p + |pat|][0] == e[p] != pat[0];
        }
      }
    }
  }

  /** Undoing the `(k-1)`-th replacement in the text escaped up to `k` gives
      the text escaped up to `k - 1`. */
  lemma {:induction false} UnescapeStep(s: string, k: nat)
    requires 1 <= k <= 5
    ensures ReplaceAll(EscapedUpTo(s, k), Entities[k - 1], [Specials[k - 1]]) == EscapedUpTo(s, k - 1)
  {
    EntityFacts();
    var pat, rep := Entities[k - 1], [Specials[k - 1]];
    if s != [] {
      var t, rest := Token(s[0], k), EscapedUpTo(s[1..], k);
      var j := SpecialIndex(s[0]);
      UnescapeStep(s[1..], k);
      if j < k - 1 {
        EntityMisses(j, k - 1, rest);
        ReplaceKeepsPrefix(t, rest, pat, rep);
      } else if j == k - 1 {
        ReplaceHits(rest, pat, rep);
      } else {
        assert s[0] != '&';
        ReplaceSkips(t, rest, pat, rep);
      }
    }
  }

  /** The chain of `replace` calls escapes every character on its own. */
  lemma EscapeIsCharwise(s: string)
    ensures HtmlEscape(s) == EscapedUpTo(s, 5)
  {
    EscapedUpToZero(s);
    EscapeStep(s, 0);
    EscapeStep(s, 1);
    EscapeStep(s, 2);
    EscapeStep(s, 3);
    EscapeStep(s, 4);
  }

  /** Unescaping in reverse order gives back the input. */
  lemma UnescapeEscape(s: string)
    ensures HtmlUnescape(HtmlEscape(s)) == s
  {
    EscapeIsCharwise(s);
    UnescapeStep(s, 5);
    UnescapeStep(s, 4);
    UnescapeStep(s, 3);
    UnescapeStep(s, 2);
    UnescapeStep(s, 1);
    EscapedUpToZero(s);
  }

  lemma {:induction false} EscapedHasNoMarkup(s: string)
    ensures forall i :: 0 <= i < |EscapedUpTo(s, 5)| ==> EscapedUpTo(s, 5)[i] !in Specials[1..]
  {
    if s != [] {
      EntityFacts();
      EscapedHasNoMarkup(s[1..]);
      var t, rest := Token(s[0], 5), EscapedUpTo(s[1..], 5);
      forall i | 0 <= i < |t + rest| ensures (t + rest)[i] !in Specials[1..] {
        if i < |t| {
          var j := SpecialIndex(s[0]);
          if j < 5 {
            assert forall k :: 1 <= k < 5 ==> Specials[k] !in t;
            assert t[i] in t;
          }
        } else {
          assert (t + rest)[i] == rest[i - |t|];
        }
      }
    }
  }

  /** The escaped text holds no `<`, `>`, `"` or `'`. */
  lemma EscapeRemovesMarkup(s: string)
    ensures var r := HtmlEscape(s); '<' !in r && '>' !in r && '"' !in r && '\'' !in r
  {
    EscapeIsCharwise(s);
    EscapedHasNoMarkup(s);
  }

  /** `&` starts one of the five entities at position `i` of `r`. */
  predicate StartsEntity(r: string, i: nat) {
    exists m :: 0 <= m < 5 && At(r, Entities[m], i)
  }

  lemma {:induction false} EscapedAmpersands(s: string)
    ensures forall i :: 0 <= i < |EscapedUpTo(s, 5)| && EscapedUpTo(s, 5)[i] == '&' ==>
      StartsEntity(EscapedUpTo(s, 5), i)
  {
    if s != [] {
      EntityFacts();
      EscapedAmpersands(s[1..]);
      var t, rest := Token(s[0], 5), EscapedUpTo(s[1..], 5);
      var j := SpecialIndex(s[0]);
      forall i | 0 <= i < |t + rest| && (t + rest)[i] == '&' ensures StartsEntity(t + rest, i) {
        if i < |t| {
          assert t[i] == '&';
          assert j < 5;
          assert forall q :: 1 <= q < |t| ==> t[q] == t[1..][q - 1];
          assert i == 0;
          assert At(t, t, 0);
          AtPrefix(t, rest, t, 0);
          assert At(t + rest, Entities[j], 0);
        } else {
          var k := i - |t|;
          assert 0 <= k < |rest| && rest[k] == (t + rest)[i] == '&';
          assert StartsEntity(rest, k);
          var m :| 0 <= m < 5 && At(rest, Entities[m], k);
          AtShift(t, rest, Entities[m], k);
        }
      }
    }
  }

  /** Every `&` in the escaped text starts one of the five entities, because
      the ampersand is replaced before any entity is introduced. */
  lemma EscapeAmpersandsStartEntities(s: string)
    ensures var r := HtmlEscape(s);
      forall i :: 0 <= i < |r| && r[i] == '&' ==> StartsEntity(r, i)
  {
    EscapeIsCharwise(s);
    EscapedAmpersands(s);
  }
}
