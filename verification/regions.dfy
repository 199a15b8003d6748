/** The scan `captures_iter` performs for the pattern "start marker, the
    shortest text, end marker", with the two markers as parameters: the
    matches it yields and what is proved about them. */
module Regions {
  import opened Text

  /** One match of the pattern: where it starts, the whole matched text and
      the text between the markers. */
  datatype Capture = Capture(at: nat, full: string, inner: string)

  /** `c` is a match in `content`: the start marker, some text and the end
      marker, with no end marker starting before the one that closes it
      (the text between is the shortest one). */
  predicate IsCapture(content: string, startMark: string, endMark: string, c: Capture) {
    c.full == startMark + c.inner + endMark
    && At(content, c.full, c.at)
    && forall j :: c.at + |startMark| <= j < c.at + |startMark| + |c.inner| ==> !At(content, endMark, j)
  }

  /** The match the scan finds from `from` on: at the first start marker,
      up to the first end marker after it. */
  function NextCapture(content: string, startMark: string, endMark: string, from: nat): (r: Option<Capture>)
    requires startMark != []
    ensures r.Some? ==> from <= r.value.at && from < r.value.at + |r.value.full| <= |content|
  {
    match FindFrom(content, startMark, from)
    case None => None
    case Some(p) =>
      match FindFrom(content, endMark, p + |startMark|)
      case None => None
      case Some(q) => Some(Capture(p, content[p..q + |endMark|], content[p + |startMark|..q]))
  }

  /** A start marker at `p`, an end marker at `q` and none in between
      make a match. */
  lemma CaptureBetween(content: string, startMark: string, endMark: string, p: nat, q: nat)
    requires At(content, startMark, p) && At(content, endMark, q) && p + |startMark| <= q
    requires forall j :: p + |startMark| <= j < q ==> !At(content, endMark, j)
    ensures IsCapture(content, startMark, endMark,
                      Capture(p, content[p..q + |endMark|], content[p + |startMark|..q]))
  {
    SliceSplit(content, p, p + |startMark|, q, q + |endMark|);
  }

  /** What the scan finds is a match. */
  lemma NextCaptureMatches(content: string, startMark: string, endMark: string, from: nat)
    requires startMark != []
    ensures var r := NextCapture(content, startMark, endMark, from);
      r.Some? ==> IsCapture(content, startMark, endMark, r.value)
  {
    match FindFrom(content, startMark, from)
    case None =>
    case Some(p) =>
      FindFromSpec(content, startMark, from);
      match FindFrom(content, endMark, p + |startMark|)
      case None =>
      case Some(q) =>
        FindFromSpec(content, endMark, p + |startMark|);
        CaptureBetween(content, startMark, endMark, p, q);
  }

  /** What the scan finds starts at the first start marker. */
  lemma NextCaptureIsLeftmost(content: string, startMark: string, endMark: string, from: nat)
    requires startMark != []
    ensures var r := NextCapture(content, startMark, endMark, from);
      r.Some? ==> forall j :: from <= j < r.value.at ==> !At(content, startMark, j)
  {
    FindFromSpec(content, startMark, from);
  }

  /** When the scan finds nothing, no start marker is followed by an end
      marker. */
  lemma NextCaptureNone(content: string, startMark: string, endMark: string, from: nat)
    requires startMark != []
    ensures NextCapture(content, startMark, endMark, from).None? ==>
      forall j, k :: (from <= j && j + |startMark| <= k && At(content, startMark, j)) ==> !At(content, endMark, k)
  {
    FindFromSpec(content, startMark, from);
    match FindFrom(content, startMark, from)
    case None =>
    case Some(p) =>
      FindFromSpec(content, endMark, p + |startMark|);
  }

  /** `captures_iter`: the matches from `from` on, the scan resuming after
      each match. */
  function CapturesFrom(content: string, startMark: string, endMark: string, from: nat): (caps: seq<Capture>)
    requires startMark != []
    decreases |content| - from
  {
    match NextCapture(content, startMark, endMark, from)
    case None => []
    case Some(c) => [c] + CapturesFrom(content, startMark, endMark, c.at + |c.full|)
  }

  lemma CapturesUnfold(content: string, startMark: string, endMark: string, from: nat, c: Capture)
    requires startMark != []
    requires NextCapture(content, startMark, endMark, from) == Some(c)
    ensures CapturesFrom(content, startMark, endMark, from)
            == [c] + CapturesFrom(content, startMark, endMark, c.at + |c.full|)
  {
  }

  /** Where the scan for the `i`-th match starts: at `from` for the first,
      after the previous match for the others. */
  function SearchStart(caps: seq<Capture>, from: nat, i: nat): nat
    requires i <= |caps|
  {
    if i == 0 then from else caps[i - 1].at + |caps[i - 1].full|
  }

  /** Where the scans start, for a match followed by more matches. */
  lemma SearchStartCons(c: Capture, rest: seq<Capture>, from: nat)
    ensures forall i :: 0 < i <= |rest| + 1 ==>
      SearchStart([c] + rest, from, i) == SearchStart(rest, c.at + |c.full|, i - 1)
  {
    forall i | 0 < i <= |rest| + 1
      ensures SearchStart([c] + rest, from, i) == SearchStart(rest, c.at + |c.full|, i - 1)
    {
      if i > 1 {
        assert ([c] + rest)[i - 1] == rest[i - 2];
      }
    }
  }

  /** Each capture is a match of the pattern. */
  lemma {:induction false} CapturesMatch(content: string, startMark: string, endMark: string, from: nat)
    requires startMark != []
    ensures forall c :: c in CapturesFrom(content, startMark, endMark, from) ==> IsCapture(content, startMark, endMark, c)
    decreases |content| - from
  {
    match NextCapture(content, startMark, endMark, from)
    case None =>
      assert CapturesFrom(content, startMark, endMark, from) == [];
    case Some(c) =>
      CapturesUnfold(content, startMark, endMark, from, c);
      NextCaptureMatches(content, startMark, endMark, from);
      CapturesMatch(content, startMark, endMark, c.at + |c.full|);
  }

  /** No match is empty: each holds at least the start marker. */
  lemma CapturesNonEmpty(content: string, startMark: string, endMark: string, from: nat)
    requires startMark != []
    ensures forall c :: c in CapturesFrom(content, startMark, endMark, from) ==> c.full != []
  {
    CapturesMatch(content, startMark, endMark, from);
    forall c | c in CapturesFrom(content, startMark, endMark, from) ensures c.full != [] {
      assert |c.full| >= |startMark|;
    }
  }

  /** The ordering of the matches, for one match followed by others. */
  lemma InOrderStep(c: Capture, rest: seq<Capture>, from: nat)
    requires from <= c.at
    requires forall i :: 0 <= i < |rest| ==> SearchStart(rest, c.at + |c.full|, i) <= rest[i].at
    ensures forall i :: 0 <= i < |rest| + 1 ==> SearchStart([c] + rest, from, i) <= ([c] + rest)[i].at
  {
    SearchStartCons(c, rest, from);
    forall i | 0 < i < |rest| + 1 ensures SearchStart([c] + rest, from, i) <= ([c] + rest)[i].at {
      assert ([c] + rest)[i] == rest[i - 1];
    }
  }

  /** The matches do not overlap: each starts after the previous one ends. */
  lemma {:induction false} CapturesInOrder(content: string, startMark: string, endMark: string, from: nat)
    requires startMark != []
    ensures var caps := CapturesFrom(content, startMark, endMark, from);
      forall i :: 0 <= i < |caps| ==> SearchStart(caps, from, i) <= caps[i].at
    decreases |content| - from
  {
    match NextCapture(content, startMark, endMark, from)
    case None =>
      assert CapturesFrom(content, startMark, endMark, from) == [];
    case Some(c) =>
      var next := c.at + |c.full|;
      CapturesUnfold(content, startMark, endMark, from, c);
      CapturesInOrder(content, startMark, endMark, next);
      InOrderStep(c, CapturesFrom(content, startMark, endMark, next), from);
  }

  /** Leftmost matching, for one match followed by others. */
  lemma LeftmostStep(content: string, startMark: string, c: Capture, rest: seq<Capture>, from: nat)
    requires forall j :: from <= j < c.at ==> !At(content, startMark, j)
    requires forall i, j :: 0 <= i < |rest| && SearchStart(rest, c.at + |c.full|, i) <= j < rest[i].at
                            ==> !At(content, startMark, j)
    ensures forall i, j :: 0 <= i < |rest| + 1 && SearchStart([c] + rest, from, i) <= j < ([c] + rest)[i].at
                           ==> !At(content, startMark, j)
  {
    SearchStartCons(c, rest, from);
    forall i, j | 0 <= i < |rest| + 1 && SearchStart([c] + rest, from, i) <= j < ([c] + rest)[i].at
      ensures !At(content, startMark, j)
    {
      if i > 0 {
        assert ([c] + rest)[i] == rest[i - 1];
      }
    }
  }

  /** Each match starts at the first start marker after the previous
      match. */
  lemma {:induction false} CapturesAreLeftmost(content: string, startMark: string, endMark: string, from: nat)
    requires startMark != []
    ensures var caps := CapturesFrom(content, startMark, endMark, from);
      forall i, j :: 0 <= i < |caps| && SearchStart(caps, from, i) <= j < caps[i].at
                     ==> !At(content, startMark, j)
    decreases |content| - from
  {
    match NextCapture(content, startMark, endMark, from)
    case None =>
      assert CapturesFrom(content, startMark, endMark, from) == [];
    case Some(c) =>
      var next := c.at + |c.full|;
      CapturesUnfold(content, startMark, endMark, from, c);
      NextCaptureIsLeftmost(content, startMark, endMark, from);
      CapturesAreLeftmost(content, startMark, endMark, next);
      LeftmostStep(content, startMark, c, CapturesFrom(content, startMark, endMark, next), from);
  }

  /** Where the scan after the last match starts, for one match followed by
      others. */
  lemma LastSearchStart(caps: seq<Capture>, c: Capture, rest: seq<Capture>, from: nat)
    requires caps == [c] + rest
    ensures SearchStart(caps, from, |caps|) == SearchStart(rest, c.at + |c.full|, |rest|)
  {
    SearchStartCons(c, rest, from);
  }

  /** From `start` on, no start marker is followed by an end marker. */
  ghost predicate NoRegionFrom(content: string, startMark: string, endMark: string, start: nat) {
    forall j, k :: (start <= j && j + |startMark| <= k && At(content, startMark, j))
                   ==> !At(content, endMark, k)
  }

  /** Exhaustiveness, where the scan finds nothing. */
  lemma ExhaustiveEnd(content: string, startMark: string, endMark: string, from: nat)
    requires startMark != [] && NextCapture(content, startMark, endMark, from).None?
    ensures var caps := CapturesFrom(content, startMark, endMark, from);
      NoRegionFrom(content, startMark, endMark, SearchStart(caps, from, |caps|))
  {
    NextCaptureNone(content, startMark, endMark, from);
    assert CapturesFrom(content, startMark, endMark, from) == [];
  }

  /** Once the matches run out, no start marker is followed by an end
      marker: the scan misses no region. */
  lemma {:induction false} CapturesAreExhaustive(content: string, startMark: string, endMark: string, from: nat)
    requires startMark != []
    ensures var caps := CapturesFrom(content, startMark, endMark, from);
      NoRegionFrom(content, startMark, endMark, SearchStart(caps, from, |caps|))
    decreases |content| - from
  {
    match NextCapture(content, startMark, endMark, from)
    case None =>
      ExhaustiveEnd(content, startMark, endMark, from);
    case Some(c) =>
      var next := c.at + |c.full|;
      CapturesAreExhaustive(content, startMark, endMark, next);
      CapturesUnfold(content, startMark, endMark, from, c);
      LastSearchStart(CapturesFrom(content, startMark, endMark, from),
                      c, CapturesFrom(content, startMark, endMark, next), from);
  }

  /** The scan yields nothing once no start marker is left. */
  lemma CapturesNone(content: string, startMark: string, endMark: string, from: nat)
    requires startMark != []
    requires FindFrom(content, startMark, from).None?
    ensures CapturesFrom(content, startMark, endMark, from) == []
  {
  }

  /** The scan finds the region that its two searches delimit. */
  lemma NextCaptureFound(content: string, startMark: string, endMark: string, from: nat, p: nat, q: nat)
    requires startMark != []
    requires FindFrom(content, startMark, from) == Some(p)
    requires FindFrom(content, endMark, p + |startMark|) == Some(q)
    ensures NextCapture(content, startMark, endMark, from)
            == Some(Capture(p, content[p..q + |endMark|], content[p + |startMark|..q]))
  {
  }

  /** From `from` on, the scan finds `caps[0]`, then from where it ends
      `caps[1]`, and so on, and no start marker after the last. */
  predicate ScanFinds(content: string, startMark: string, endMark: string, caps: seq<Capture>, from: nat)
    requires startMark != []
    decreases |caps|
  {
    if caps == [] then FindFrom(content, startMark, from) == None
    else
      NextCapture(content, startMark, endMark, from) == Some(caps[0])
      && ScanFinds(content, startMark, endMark, caps[1..], caps[0].at + |caps[0].full|)
  }

  lemma ScanNil(content: string, startMark: string, endMark: string, caps: seq<Capture>, from: nat)
    requires startMark != [] && caps == []
    requires FindFrom(content, startMark, from) == None
    ensures ScanFinds(content, startMark, endMark, caps, from)
  {
  }

  lemma ScanCons(content: string, startMark: string, endMark: string, caps: seq<Capture>, from: nat,
                 c: Capture, rest: seq<Capture>, next: nat)
    requires startMark != [] && caps != [] && caps[0] == c && caps[1..] == rest
    requires NextCapture(content, startMark, endMark, from) == Some(c)
    requires next == c.at + |c.full|
    requires ScanFinds(content, startMark, endMark, rest, next)
    ensures ScanFinds(content, startMark, endMark, caps, from)
  {
  }

  lemma ScanStep(content: string, startMark: string, endMark: string, c: Capture, rest: seq<Capture>, from: nat)
    requires startMark != []
    requires NextCapture(content, startMark, endMark, from) == Some(c)
    requires CapturesFrom(content, startMark, endMark, c.at + |c.full|) == rest
    ensures CapturesFrom(content, startMark, endMark, from) == [c] + rest
  {
    CapturesUnfold(content, startMark, endMark, from, c);
  }

  /** Then the scan yields exactly those matches. */
  lemma {:induction false} ScanYields(content: string, startMark: string, endMark: string,
                                      caps: seq<Capture>, from: nat)
    requires startMark != []
    requires ScanFinds(content, startMark, endMark, caps, from)
    ensures CapturesFrom(content, startMark, endMark, from) == caps
    decreases |caps|
  {
    if caps == [] {
      CapturesNone(content, startMark, endMark, from);
    } else {
      ScanYields(content, startMark, endMark, caps[1..], caps[0].at + |caps[0].full|);
      ScanStep(content, startMark, endMark, caps[0], caps[1..], from);
      assert caps == [caps[0]] + caps[1..];
    }
  }

  /** The scan of a text with exactly one match. */
  lemma OnlyCapture(content: string, startMark: string, endMark: string, at: nat, full: string, inner: string)
    requires startMark != []
    requires NextCapture(content, startMark, endMark, 0) == Some(Capture(at, full, inner))
    requires CapturesFrom(content, startMark, endMark, at + |full|) == []
    ensures CapturesFrom(content, startMark, endMark, 0) == [Capture(at, full, inner)]
  {
    CapturesUnfold(content, startMark, endMark, 0, Capture(at, full, inner));
  }

  /** In a text with one marked region, the start search stops at the
      region's start marker ... */
  lemma RegionStart(sm: string, em: string, pre: string, inner: string, post: string)
    requires sm != [] && sm[0] !in sm[1..]
    requires !Contains(pre, sm)
    ensures FindFrom(pre + (sm + inner + em) + post, sm, 0) == Some(|pre|)
  {
    var tail := inner + (em + post);
    AppendAssoc(pre, sm + inner + em, post);
    AppendAssoc(sm + inner, em, post);
    AppendAssoc(sm, inner, em + post);
    FindFirstFree(pre, sm, tail);
  }

  /** ... the end search after it stops at the region's end marker ... */
  lemma RegionEnd(sm: string, em: string, pre: string, inner: string, post: string)
    requires em != [] && em[0] !in em[1..]
    requires !Contains(inner, em)
    ensures FindFrom(pre + (sm + inner + em) + post, em, |pre| + |sm|) == Some(|pre| + |sm| + |inner|)
  {
    var tail := inner + (em + post);
    AppendAssoc(pre, sm + inner + em, post);
    AppendAssoc(sm + inner, em, post);
    AppendAssoc(sm, inner, em + post);
    AppendAssoc(pre, sm, tail);
    FindAfterFree(pre + sm, inner, em, post);
  }

  /** ... the text between is the region's inner text ... */
  lemma RegionInner(sm: string, em: string, pre: string, inner: string, post: string)
    ensures (pre + (sm + inner + em) + post)[|pre| + |sm|..|pre| + |sm| + |inner|] == inner
  {
    AppendAssoc(pre, sm + inner + em, post);
    AppendAssoc(sm + inner, em, post);
    AppendAssoc(sm, inner, em + post);
    AppendAssoc(pre, sm, inner + (em + post));
    AppendAssoc(pre + sm, inner, em + post);
    SliceMiddle(pre + sm, inner, em + post);
  }

  /** ... and no start marker follows the region. */
  lemma RegionLast(sm: string, em: string, pre: string, inner: string, post: string)
    requires sm != [] && !Contains(post, sm)
    ensures CapturesFrom(pre + (sm + inner + em) + post, sm, em, |pre| + |sm + inner + em|) == []
  {
    FindInFree(pre + (sm + inner + em), post, sm);
    CapturesNone(pre + (sm + inner + em) + post, sm, em, |pre| + |sm + inner + em|);
  }

  /** ... so the scan finds that region first. */
  lemma RegionNext(sm: string, em: string, pre: string, inner: string, post: string)
    requires sm != [] && sm[0] !in sm[1..]
    requires em != [] && em[0] !in em[1..]
    requires !Contains(pre, sm) && !Contains(inner, em)
    ensures NextCapture(pre + (sm + inner + em) + post, sm, em, 0) == Some(Capture(|pre|, sm + inner + em, inner))
  {
    var content := pre + (sm + inner + em) + post;
    var q := |pre| + |sm| + |inner|;
    RegionStart(sm, em, pre, inner, post);
    RegionEnd(sm, em, pre, inner, post);
    NextCaptureFound(content, sm, em, 0, |pre|, q);
    RegionInner(sm, em, pre, inner, post);
    SliceMiddle(pre, sm + inner + em, post);
    assert q + |em| == |pre| + |sm + inner + em|;
  }

  /** A text with a marked region contains both markers. */
  lemma RegionHasMarkers(sm: string, em: string, pre: string, inner: string, post: string)
    ensures Contains(pre + (sm + inner + em) + post, sm)
    ensures Contains(pre + (sm + inner + em) + post, em)
    ensures sm <= sm + inner + em
  {
    var full := sm + inner + em;
    assert full[..|sm|] == sm;
    assert At(full, sm, 0);
    AppendAssoc(sm, inner, em);
    assert full[|sm| + |inner|..] == em;
    assert At(full, em, |sm| + |inner|);
    ContainsIn(pre, full, post, sm, 0);
    ContainsIn(pre, full, post, em, |sm| + |inner|);
  }

  /** A text with one marked region, whose start marker is the first in the
      text, whose end marker is the first after it, and with no start
      marker after it: the scan yields exactly that region. */
  lemma OneCapture(startMark: string, endMark: string, pre: string, inner: string, post: string)
    requires startMark != [] && startMark[0] !in startMark[1..]
    requires endMark != [] && endMark[0] !in endMark[1..]
    requires !Contains(pre, startMark) && !Contains(inner, endMark) && !Contains(post, startMark)
    ensures CapturesFrom(pre + (startMark + inner + endMark) + post, startMark, endMark, 0)
            == [Capture(|pre|, startMark + inner + endMark, inner)]
  {
    RegionLast(startMark, endMark, pre, inner, post);
    FirstRegion(startMark, endMark, pre, inner, post);
  }

  /** The scan of a text with a marked region first and no matches after it. */
  lemma FirstRegion(sm: string, em: string, pre: string, inner: string, post: string)
    requires sm != [] && sm[0] !in sm[1..]
    requires em != [] && em[0] !in em[1..]
    requires !Contains(pre, sm) && !Contains(inner, em)
    requires CapturesFrom(pre + (sm + inner + em) + post, sm, em, |pre| + |sm + inner + em|) == []
    ensures CapturesFrom(pre + (sm + inner + em) + post, sm, em, 0) == [Capture(|pre|, sm + inner + em, inner)]
  {
    RegionNext(sm, em, pre, inner, post);
    OnlyCapture(pre + (sm + inner + em) + post, sm, em, |pre|, sm + inner + em, inner);
  }

  /** The scan resumed at the end of `front`, over a gap free of start
      markers and then a marked region whose inner text holds no end
      marker, finds that region. */
  lemma RegionAfter(sm: string, em: string, front: string, gap: string, inner: string, rest: string)
    requires sm != [] && sm[0] !in sm[1..]
    requires em != [] && em[0] !in em[1..]
    requires !Contains(gap, sm) && !Contains(inner, em)
    ensures NextCapture(front + (gap + (sm + (inner + (em + rest)))), sm, em, |front|)
            == Some(Capture(|front| + |gap|, sm + inner + em, inner))
  {
    var content := front + (gap + (sm + (inner + (em + rest))));
    var p := |front| + |gap|;
    var q := p + |sm| + |inner|;
    FindAfterFree(front, gap, sm, inner + (em + rest));
    EndAfter(sm, em, front, gap, inner, rest);
    RegionSlices(sm, em, front, gap, inner, rest);
    NextCaptureFound(content, sm, em, |front|, p, q);
  }

  /** The first end marker after the start marker is the region's. */
  lemma EndAfter(sm: string, em: string, front: string, gap: string, inner: string, rest: string)
    requires em != [] && em[0] !in em[1..]
    requires !Contains(inner, em)
    ensures FindFrom(front + (gap + (sm + (inner + (em + rest)))), em, |front| + |gap| + |sm|)
            == Some(|front| + |gap| + |sm| + |inner|)
  {
    AppendAssoc(front + gap, sm, inner + (em + rest));
    AppendAssoc(front, gap, sm + (inner + (em + rest)));
    FindAfterFree(front + gap + sm, inner, em, rest);
  }

  /** The slices `NextCapture` takes of a marked region. */
  lemma RegionSlices(sm: string, em: string, front: string, gap: string, inner: string, rest: string)
    ensures var content := front + (gap + (sm + (inner + (em + rest))));
      var p := |front| + |gap|;
      var q := p + |sm| + |inner|;
      content[p..q + |em|] == sm + inner + em && content[p + |sm|..q] == inner
  {
    var content := front + (gap + (sm + (inner + (em + rest))));
    assert content == (front + gap) + (sm + inner + em) + rest;
    SliceMiddle(front + gap, sm + inner + em, rest);
    assert content == (front + gap + sm) + inner + (em + rest);
    SliceMiddle(front + gap + sm, inner, em + rest);
  }

  /** Within a marked region whose inner text holds no start marker, a start
      marker begins only at the region's start, whatever follows the region,
      when the end marker starts with the start marker's first character,
      has it nowhere else, and neither marker is a prefix of the other. */
  lemma RegionMarks(sm: string, em: string, inner: string, y: string)
    requires sm != [] && sm[0] !in sm[1..]
    requires em != [] && em[0] == sm[0] && sm[0] !in em[1..]
    requires !(sm <= em) && !(em <= sm)
    requires !Contains(inner, sm)
    ensures forall j: nat :: 0 < j < |sm + inner + em| ==> !At((sm + inner + em) + y, sm, j)
  {
    var s := (sm + inner + em) + y;
    var b := |sm| + |inner|;
    forall j: nat | 0 < j < |sm + inner + em| && j + |sm| <= |s| ensures !At(s, sm, j) {
      assert s[j..j + |sm|][0] == s[j];
      if j < |sm| {
        assert s[j] == sm[j] == sm[1..][j - 1];
      } else if j + |sm| <= b {
        assert s[j..j + |sm|] == inner[j - |sm|..j - |sm| + |sm|];
        assert !At(inner, sm, j - |sm|);
      } else if j < b {
        var o := b - j;
        assert s[j..j + |sm|][o] == s[b] == em[0];
        assert sm[o] == sm[1..][o - 1];
      } else if j == b {
        EndNotStart(sm, em, inner, y);
      } else {
        assert s[j] == em[j - b] == em[1..][j - b - 1];
      }
    }
  }

  /** Where the end marker of a region begins, the start marker does not
      (neither marker is a prefix of the other). */
  lemma EndNotStart(sm: string, em: string, inner: string, y: string)
    requires !(sm <= em) && !(em <= sm)
    ensures !At((sm + inner + em) + y, sm, |sm| + |inner|)
  {
    var s := (sm + inner + em) + y;
    var b := |sm| + |inner|;
    SliceMiddle(sm + inner, em, y);
    if |sm| <= |em| {
      TakeOfSlice(s, b, |em|, |sm|);
    } else if b + |sm| <= |s| {
      TakeOfSlice(s, b, |sm|, |em|);
    }
  }

  /** Two marked regions whose inner texts hold no end marker: when one
      begins where the other does, they are the same region. */
  lemma SameRegion(sm: string, em: string, a: string, b: string, y: string)
    requires em != [] && em[0] !in em[1..]
    requires !Contains(a, em) && !Contains(b, em)
    requires At((sm + a + em) + y, sm + b + em, 0)
    ensures a == b
  {
    var s := (sm + a + em) + y;
    var rb := sm + b + em;
    var ra := sm + a + em;
    NotLonger(sm, em, a, b, y);
    assert s[..|rb|] == rb;
    assert At(rb + [], ra, 0) by {
      assert rb + [] == rb;
      assert rb[..|ra|] == s[..|rb|][..|ra|] == s[..|ra|] == ra;
    }
    NotLonger(sm, em, b, a, []);
    assert a == s[|sm|..|sm| + |a|] == rb[|sm|..|sm| + |b|] == b;
  }

  /** A region whose body holds no end marker cannot be matched by a
      region with a shorter body. */
  lemma NotLonger(sm: string, em: string, a: string, b: string, y: string)
    requires em != [] && em[0] !in em[1..]
    requires !Contains(a, em)
    requires At((sm + a + em) + y, sm + b + em, 0)
    ensures |a| <= |b|
  {
    var s := (sm + a + em) + y;
    var rb := sm + b + em;
    assert s[..|rb|] == rb;
    if |b| < |a| {
      assert s[|sm| + |b|..|sm| + |b| + |em|] == rb[|sm| + |b|..] == em;
      assert s == sm + (a + (em + y));
      HeadBefore(a, em + y, em);
      AtShift(sm, a + (em + y), em, |b|);
    }
  }
}
