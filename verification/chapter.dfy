/** A chapter with any number of marked regions: `process_markdown`
    replaces each region that holds code blocks by its widget, leaves the
    other regions as they are and keeps the text between them. */
module Chapters {
  import opened Text
  import opened Regions
  import opened Extract
  import opened Render
  import opened Preprocessor

  /** A stretch of ordinary text, then a marked region with the given inner
      text. */
  datatype Part = Part(gap: string, inner: string)

  /** A stretch of ordinary text, then either a marked region still in place
      or the widget that replaced it. */
  datatype Span = Kept(gap: string, inner: string) | Put(gap: string, widget: string)

  function Body(sm: string, em: string, s: Span): string {
    match s
    case Kept(_, inner) => sm + inner + em
    case Put(_, widget) => widget
  }

  function SpanText(sm: string, em: string, s: Span): string {
    s.gap + Body(sm, em, s)
  }

  function Flat(sm: string, em: string, spans: seq<Span>): string
    decreases |spans|
  {
    if spans == [] then [] else SpanText(sm, em, spans[0]) + Flat(sm, em, spans[1..])
  }

  /** The chapter as written: every region in place. */
  function Original(parts: seq<Part>): (spans: seq<Span>)
    ensures |spans| == |parts|
    decreases |parts|
  {
    if parts == [] then [] else [Kept(parts[0].gap, parts[0].inner)] + Original(parts[1..])
  }

  /** What becomes of the `i`-th region: the widget for its blocks, named by
      the `i`-th id, or the region itself when it has none. */
  function Shown(p: Part, i: nat, parse: string -> seq<Event>, ids: nat -> string): Span {
    var blocks := CodeBlocks(parse(p.inner));
    if blocks == [] then Kept(p.gap, p.inner) else Put(p.gap, TabsHtml(blocks, ids(i)))
  }

  /** The chapter once every region has been handled. */
  function Rendered(parts: seq<Part>, parse: string -> seq<Event>, ids: nat -> string): seq<Span> {
    seq(|parts|, i requires 0 <= i < |parts| => Shown(parts[i], i, parse, ids))
  }

  /** The chapter once the first `k` regions have been handled. */
  function Stage(parts: seq<Part>, parse: string -> seq<Event>, ids: nat -> string, k: nat): seq<Span>
    requires k <= |parts|
  {
    Rendered(parts, parse, ids)[..k] + Original(parts)[k..]
  }

  /** The text of the chapter as written, `post` after its last region. */
  function Written(sm: string, em: string, parts: seq<Part>, post: string): string {
    Flat(sm, em, Original(parts)) + post
  }

  /** The text of the chapter once the first `k` regions have been handled. */
  function StageText(sm: string, em: string, parts: seq<Part>, post: string,
                     parse: string -> seq<Event>, ids: nat -> string, k: nat): string
    requires k <= |parts|
  {
    Flat(sm, em, Stage(parts, parse, ids, k)) + post
  }

  /** The markers can be told apart from each other and from themselves:
      both begin with a character that occurs nowhere else in either, the
      start marker ends with a character that occurs nowhere else in it,
      and neither is a prefix of the other. */
  predicate MarkersApart(sm: string, em: string) {
    sm != [] && em != []
    && sm[0] !in sm[1..] && sm[|sm| - 1] !in sm[..|sm| - 1]
    && em[0] == sm[0] && sm[0] !in em[1..]
    && !(sm <= em) && !(em <= sm)
  }

  /** A gap holds no start marker; an inner text holds neither marker. */
  predicate PartOk(sm: string, em: string, p: Part) {
    !Contains(p.gap, sm) && !Contains(p.inner, sm) && !Contains(p.inner, em)
  }

  /** A widget starts and ends like the start marker and does not hold it. */
  predicate SpanOk(sm: string, em: string, s: Span) {
    !Contains(s.gap, sm)
    && match s
       case Kept(_, inner) => !Contains(inner, sm) && !Contains(inner, em)
       case Put(_, w) =>
         sm != [] && w != [] && w[0] == sm[0] && w[|w| - 1] == sm[|sm| - 1] && !Contains(w, sm)
  }

  /** The gaps and what follows the last region hold no start marker, the
      inner texts hold neither marker, and no two regions are alike. */
  predicate RegionsApart(sm: string, em: string, parts: seq<Part>, post: string) {
    (forall i :: 0 <= i < |parts| ==> PartOk(sm, em, parts[i]))
    && (forall i, j :: 0 <= i < j < |parts| ==> parts[i].inner != parts[j].inner)
    && !Contains(post, sm)
  }

  /** A chapter laid out as marked regions and the gaps before them, with
      markers that can be told apart. */
  predicate LaidOut(sm: string, em: string, parts: seq<Part>, post: string) {
    MarkersApart(sm, em) && RegionsApart(sm, em, parts, post)
  }

  /** Every widget the chapter gets is free of the start marker. */
  predicate WidgetsFree(sm: string, parts: seq<Part>, parse: string -> seq<Event>, ids: nat -> string) {
    forall i :: 0 <= i < |parts| && CodeBlocks(parse(parts[i].inner)) != [] ==>
      !Contains(TabsHtml(CodeBlocks(parse(parts[i].inner)), ids(i)), sm)
  }

  /** Every widget the chapter gets is free of the start marker, and the
      start marker begins and ends as a widget does. */
  predicate WidgetsApart(sm: string, parts: seq<Part>, parse: string -> seq<Event>, ids: nat -> string) {
    sm != [] && sm[0] == '<' && sm[|sm| - 1] == '>' && WidgetsFree(sm, parts, parse, ids)
  }

  // ---------------------------------------------------------------------
  // The spans of a chapter, one by one.

  lemma {:induction false} OriginalAt(parts: seq<Part>, m: nat)
    requires m < |parts|
    ensures Original(parts)[m] == Kept(parts[m].gap, parts[m].inner)
    decreases m
  {
    if m > 0 {
      OriginalAt(parts[1..], m - 1);
      assert Original(parts)[m] == Original(parts[1..])[m - 1];
    }
  }

  /** The `j`-th span of the chapter once `k` regions have been handled. */
  lemma StageAt(parts: seq<Part>, parse: string -> seq<Event>, ids: nat -> string, k: nat, j: nat)
    requires k <= |parts| && j < |parts|
    ensures |Stage(parts, parse, ids, k)| == |parts|
    ensures Stage(parts, parse, ids, k)[j]
            == if j < k then Shown(parts[j], j, parse, ids) else Kept(parts[j].gap, parts[j].inner)
  {
    if k <= j {
      OriginalAt(parts, j);
    }
  }

  /** Before the loop, the chapter is as written. */
  lemma StageNone(parts: seq<Part>, parse: string -> seq<Event>, ids: nat -> string)
    ensures Stage(parts, parse, ids, 0) == Original(parts)
  {
    assert Original(parts)[0..] == Original(parts);
  }

  /** A region without blocks stays as it is. */
  lemma StageSame(parts: seq<Part>, parse: string -> seq<Event>, ids: nat -> string, k: nat)
    requires k < |parts| && CodeBlocks(parse(parts[k].inner)) == []
    ensures Stage(parts, parse, ids, k + 1) == Stage(parts, parse, ids, k)
  {
    StageAt(parts, parse, ids, k, k);
    StageAt(parts, parse, ids, k + 1, k);
    forall j | 0 <= j < |parts| ensures Stage(parts, parse, ids, k + 1)[j] == Stage(parts, parse, ids, k)[j] {
      StageSameAt(parts, parse, ids, k, j);
    }
  }

  lemma StageSameAt(parts: seq<Part>, parse: string -> seq<Event>, ids: nat -> string, k: nat, j: nat)
    requires k < |parts| && CodeBlocks(parse(parts[k].inner)) == [] && j < |parts|
    ensures Stage(parts, parse, ids, k + 1)[j] == Stage(parts, parse, ids, k)[j]
  {
    StageAt(parts, parse, ids, k, j);
    StageAt(parts, parse, ids, k + 1, j);
    if j == k {
      ShownKept(parts[k], k, parse, ids);
    }
  }

  /** A region without blocks is shown as it is. */
  lemma ShownKept(p: Part, i: nat, parse: string -> seq<Event>, ids: nat -> string)
    requires CodeBlocks(parse(p.inner)) == []
    ensures Shown(p, i, parse, ids) == Kept(p.gap, p.inner)
  {
  }

  // ---------------------------------------------------------------------
  // Where a region's text can occur.

  /** A region begins only where a start marker does. */
  lemma OnlyAtHead(sm: string, em: string, inner: string, x: string, j: nat)
    requires sm != [] && 0 < j && !At(x, sm, j)
    ensures !At(x, sm + inner + em, j)
  {
    var r := sm + inner + em;
    assert r[..|sm|] == sm;
    if At(x, r, j) {
      AtPrefixOfPattern(x, r, sm, j);
    }
  }

  /** A region other than `other` does not begin inside `other`'s text. */
  lemma KeptMiss(sm: string, em: string, other: string, inner: string, z: string)
    requires MarkersApart(sm, em)
    requires !Contains(other, sm) && !Contains(other, em) && !Contains(inner, em)
    requires other != inner
    ensures forall j: nat :: j < |sm + other + em| ==> !At((sm + other + em) + z, sm + inner + em, j)
  {
    var x := (sm + other + em) + z;
    RegionMarks(sm, em, other, z);
    forall j: nat | j < |sm + other + em| ensures !At(x, sm + inner + em, j) {
      if j == 0 {
        if At(x, sm + inner + em, 0) {
          SameRegion(sm, em, other, inner, z);
        }
      } else {
        OnlyAtHead(sm, em, inner, x, j);
      }
    }
  }

  /** No region begins inside a widget. */
  lemma PutMiss(sm: string, em: string, w: string, inner: string, z: string)
    requires MarkersApart(sm, em)
    requires w != [] && w[|w| - 1] == sm[|sm| - 1] && !Contains(w, sm)
    ensures forall j: nat :: j < |w| ==> !At(w + z, sm + inner + em, j)
  {
    EndsSealed(w, z, sm);
    forall j: nat | j < |w| ensures !At(w + z, sm + inner + em, j) {
      var r := sm + inner + em;
      assert r[..|sm|] == sm;
      if At(w + z, r, j) {
        AtPrefixOfPattern(w + z, r, sm, j);
      }
    }
  }

  /** A region other than the one in `s` does not begin inside `s`'s body. */
  lemma BodyMiss(sm: string, em: string, s: Span, inner: string, z: string)
    requires MarkersApart(sm, em) && SpanOk(sm, em, s)
    requires !Contains(inner, em)
    requires s.Kept? ==> s.inner != inner
    ensures forall j: nat :: j < |Body(sm, em, s)| ==> !At(Body(sm, em, s) + z, sm + inner + em, j)
  {
    match s {
      case Kept(_, other) => KeptMiss(sm, em, other, inner, z);
      case Put(_, w) => PutMiss(sm, em, w, inner, z);
    }
  }

  /** A region other than the one in `s` does not begin inside `s`'s text,
      whatever follows it. */
  lemma SpanMiss(sm: string, em: string, s: Span, inner: string, z: string)
    requires MarkersApart(sm, em) && SpanOk(sm, em, s)
    requires !Contains(inner, em)
    requires s.Kept? ==> s.inner != inner
    ensures forall j: nat :: j < |SpanText(sm, em, s)| ==> !At(SpanText(sm, em, s) + z, sm + inner + em, j)
  {
    var r := sm + inner + em;
    var g := s.gap;
    var t := Body(sm, em, s) + z;
    assert SpanText(sm, em, s) + z == g + t;
    assert t[0] == sm[0] by {
      match s {
        case Kept(_, other) => assert t[0] == (sm + other + em)[0];
        case Put(_, w) =>
      }
    }
    HeadBefore(g, t, sm);
    BodyMiss(sm, em, s, inner, z);
    assert r[..|sm|] == sm;
    forall j: nat | j < |SpanText(sm, em, s)| ensures !At(g + t, r, j) {
      if j < |g| {
        if At(g + t, r, j) {
          AtPrefixOfPattern(g + t, r, sm, j);
        }
      } else {
        AtShift(g, t, r, j - |g|);
      }
    }
  }

  /** A region other than those among `spans` does not begin inside their
      text, whatever follows it. */
  lemma {:induction false} SpansMiss(sm: string, em: string, spans: seq<Span>, inner: string, y: string)
    requires MarkersApart(sm, em)
    requires forall i :: 0 <= i < |spans| ==> SpanOk(sm, em, spans[i])
    requires forall i :: 0 <= i < |spans| && spans[i].Kept? ==> spans[i].inner != inner
    requires !Contains(inner, em)
    ensures forall j: nat :: j < |Flat(sm, em, spans)| ==> !At(Flat(sm, em, spans) + y, sm + inner + em, j)
    decreases |spans|
  {
    if spans != [] {
      var head := SpanText(sm, em, spans[0]);
      var rest := Flat(sm, em, spans[1..]) + y;
      SpansMiss(sm, em, spans[1..], inner, y);
      SpanMiss(sm, em, spans[0], inner, rest);
      assert Flat(sm, em, spans) + y == head + rest;
      forall j: nat | |head| <= j < |Flat(sm, em, spans)| ensures !At(head + rest, sm + inner + em, j) {
        AtShift(head, rest, sm + inner + em, j - |head|);
      }
    }
  }

  /** ... nor anywhere in their text followed by a text free of start
      markers. */
  lemma TailMiss(sm: string, em: string, spans: seq<Span>, inner: string, post: string)
    requires MarkersApart(sm, em)
    requires forall i :: 0 <= i < |spans| ==> SpanOk(sm, em, spans[i])
    requires forall i :: 0 <= i < |spans| && spans[i].Kept? ==> spans[i].inner != inner
    requires !Contains(inner, em) && !Contains(post, sm)
    ensures !Contains(Flat(sm, em, spans) + post, sm + inner + em)
  {
    var f := Flat(sm, em, spans);
    var r := sm + inner + em;
    SpansMiss(sm, em, spans, inner, post);
    assert r[..|sm|] == sm;
    LacksExtension(post, r, sm);
    forall j | 0 <= j <= |f + post| ensures !At(f + post, r, j) {
      if j >= |f| {
        AtShift(f, post, r, j - |f|);
      }
    }
  }

  // ---------------------------------------------------------------------
  // The text of a chapter, span by span.

  /** The text of the spans before the `k`-th, of the `k`-th, and of the
      ones after it. */
  lemma {:induction false} FlatAround(sm: string, em: string, spans: seq<Span>, k: nat)
    requires k < |spans|
    ensures Flat(sm, em, spans)
            == Flat(sm, em, spans[..k]) + (SpanText(sm, em, spans[k]) + Flat(sm, em, spans[k + 1..]))
    decreases k
  {
    if k == 0 {
      assert spans[..0] == [];
    } else {
      var tail := spans[1..];
      FlatAround(sm, em, tail, k - 1);
      assert tail[..k - 1] == spans[1..k] && tail[k - 1] == spans[k] && tail[k..] == spans[k + 1..];
      assert spans[..k][0] == spans[0] && spans[..k][1..] == spans[1..k];
      AppendAssoc(SpanText(sm, em, spans[0]), Flat(sm, em, spans[1..k]),
                  SpanText(sm, em, spans[k]) + Flat(sm, em, spans[k + 1..]));
    }
  }

  lemma FlatTakeLength(sm: string, em: string, spans: seq<Span>, k: nat)
    requires k < |spans|
    ensures |Flat(sm, em, spans[..k + 1])| == |Flat(sm, em, spans[..k])| + |SpanText(sm, em, spans[k])|
  {
    var front := spans[..k + 1];
    FlatAround(sm, em, front, k);
    assert front[..k] == spans[..k] && front[k] == spans[k] && front[k + 1..] == [];
  }

  // ---------------------------------------------------------------------
  // The scan over a text cut into regions.

  /** `content` cut around each region: for the `i`-th, `before[i]` is the
      text before its gap and `after[i]` the text after its end marker, and
      each gap begins where the previous region ends. */
  predicate Cut(content: string, sm: string, em: string, parts: seq<Part>, before: seq<string>, after: seq<string>) {
    |before| == |parts| + 1 && |after| == |parts|
    && (forall i {:trigger after[i]} :: 0 <= i < |parts| ==>
          content == before[i] + (parts[i].gap + (sm + (parts[i].inner + (em + after[i])))))
    && (forall i :: 0 <= i < |parts| ==>
          |before[i + 1]| == |before[i]| + |parts[i].gap| + |sm + parts[i].inner + em|)
  }

  /** The regions of a cut text from the `m`-th on, where the scan finds
      them. */
  function Found(sm: string, em: string, parts: seq<Part>, before: seq<string>, m: nat): (caps: seq<Capture>)
    requires |parts| < |before|
    ensures m <= |parts| ==> |caps| == |parts| - m
    decreases |parts| - m
  {
    if m >= |parts| then []
    else
      [Capture(|before[m]| + |parts[m].gap|, sm + parts[m].inner + em, parts[m].inner)]
      + Found(sm, em, parts, before, m + 1)
  }

  lemma FoundFront(sm: string, em: string, parts: seq<Part>, before: seq<string>, m: nat)
    requires |parts| < |before| && m < |parts|
    ensures Found(sm, em, parts, before, m) != []
    ensures Found(sm, em, parts, before, m)[0]
            == Capture(|before[m]| + |parts[m].gap|, sm + parts[m].inner + em, parts[m].inner)
    ensures Found(sm, em, parts, before, m)[1..] == Found(sm, em, parts, before, m + 1)
  {
  }

  lemma {:induction false} FoundIndex(sm: string, em: string, parts: seq<Part>, before: seq<string>, m: nat, i: nat)
    requires |parts| < |before| && m <= i < |parts|
    ensures Found(sm, em, parts, before, m)[i - m].full == sm + parts[i].inner + em
    ensures Found(sm, em, parts, before, m)[i - m].inner == parts[i].inner
    decreases i - m
  {
    FoundFront(sm, em, parts, before, m);
    if m < i {
      FoundIndex(sm, em, parts, before, m + 1, i);
      assert Found(sm, em, parts, before, m)[i - m] == Found(sm, em, parts, before, m)[1..][i - m - 1];
    }
  }

  /** What the found regions are: the text's own, one by one. */
  lemma FoundShape(sm: string, em: string, parts: seq<Part>, before: seq<string>)
    requires |parts| < |before|
    ensures forall i :: 0 <= i < |parts| ==>
              Found(sm, em, parts, before, 0)[i].full == sm + parts[i].inner + em
              && Found(sm, em, parts, before, 0)[i].inner == parts[i].inner
  {
    forall i | 0 <= i < |parts|
      ensures Found(sm, em, parts, before, 0)[i].full == sm + parts[i].inner + em
              && Found(sm, em, parts, before, 0)[i].inner == parts[i].inner
    {
      FoundIndex(sm, em, parts, before, 0, i);
    }
  }

  /** The scan from the `m`-th gap of a cut text finds the `m`-th region. */
  lemma CutFound(content: string, sm: string, em: string, parts: seq<Part>, before: seq<string>, after: seq<string>,
                 m: nat)
    requires sm != [] && sm[0] !in sm[1..] && em != [] && em[0] !in em[1..]
    requires Cut(content, sm, em, parts, before, after) && m < |parts|
    requires !Contains(parts[m].gap, sm) && !Contains(parts[m].inner, em)
    ensures NextCapture(content, sm, em, |before[m]|)
            == Some(Capture(|before[m]| + |parts[m].gap|, sm + parts[m].inner + em, parts[m].inner))
  {
    assert content == before[m] + (parts[m].gap + (sm + (parts[m].inner + (em + after[m]))));
    RegionAfter(sm, em, before[m], parts[m].gap, parts[m].inner, after[m]);
  }

  /** One step of the scan over a cut text: from the `m`-th gap it finds
      the `m`-th region and goes on where that region ends. */
  lemma CutStep(content: string, sm: string, em: string, parts: seq<Part>,
                before: seq<string>, after: seq<string>, m: nat)
    requires MarkersApart(sm, em) && forall i :: 0 <= i < |parts| ==> PartOk(sm, em, parts[i])
    requires Cut(content, sm, em, parts, before, after) && m < |parts|
    requires ScanFinds(content, sm, em, Found(sm, em, parts, before, m + 1), |before[m + 1]|)
    ensures ScanFinds(content, sm, em, Found(sm, em, parts, before, m), |before[m]|)
  {
    var c := Capture(|before[m]| + |parts[m].gap|, sm + parts[m].inner + em, parts[m].inner);
    assert PartOk(sm, em, parts[m]);
    CutFound(content, sm, em, parts, before, after, m);
    FoundFront(sm, em, parts, before, m);
    ScanCons(content, sm, em, Found(sm, em, parts, before, m), |before[m]|, c,
             Found(sm, em, parts, before, m + 1), |before[m + 1]|);
  }

  /** The scan of a cut text from the `m`-th gap finds the regions from the
      `m`-th on, one after the other, when no start marker follows the
      last. */
  lemma {:induction false} CutScan(content: string, sm: string, em: string, parts: seq<Part>,
                                   before: seq<string>, after: seq<string>, m: nat)
    requires MarkersApart(sm, em) && forall i :: 0 <= i < |parts| ==> PartOk(sm, em, parts[i])
    requires Cut(content, sm, em, parts, before, after) && m <= |parts|
    requires FindFrom(content, sm, |before[|parts|]|) == None
    ensures ScanFinds(content, sm, em, Found(sm, em, parts, before, m), |before[m]|)
    decreases |parts| - m
  {
    if m == |parts| {
      ScanNil(content, sm, em, Found(sm, em, parts, before, m), |before[m]|);
    } else {
      CutScan(content, sm, em, parts, before, after, m + 1);
      CutStep(content, sm, em, parts, before, after, m);
    }
  }

  // ---------------------------------------------------------------------
  // The scan over a laid-out chapter.

  /** The text before each gap of the chapter as written, and before `post`. */
  function Befores(sm: string, em: string, parts: seq<Part>): seq<string> {
    seq(|parts| + 1, i requires 0 <= i <= |parts| => Flat(sm, em, Original(parts)[..i]))
  }

  /** The text after each region of the chapter as written. */
  function Afters(sm: string, em: string, parts: seq<Part>, post: string): seq<string> {
    seq(|parts|, i requires 0 <= i < |parts| => Flat(sm, em, Original(parts)[i + 1..]) + post)
  }

  /** The text around the `m`-th span, a region still in place. */
  lemma KeptAround(sm: string, em: string, spans: seq<Span>, post: string, m: nat)
    requires m < |spans| && spans[m].Kept?
    ensures Flat(sm, em, spans) + post
            == Flat(sm, em, spans[..m])
               + (spans[m].gap + (sm + (spans[m].inner + (em + (Flat(sm, em, spans[m + 1..]) + post)))))
  {
    var rest := Flat(sm, em, spans[m + 1..]) + post;
    FlatSplit(sm, em, spans, m, post);
    AppendAssoc(Flat(sm, em, spans[..m]), spans[m].gap, Body(sm, em, spans[m]) + rest);
    AppendAssoc(sm + spans[m].inner, em, rest);
    AppendAssoc(sm, spans[m].inner, em + rest);
  }

  lemma WrittenAround(sm: string, em: string, parts: seq<Part>, post: string, i: nat)
    requires i < |parts|
    ensures Written(sm, em, parts, post)
            == Befores(sm, em, parts)[i]
               + (parts[i].gap + (sm + (parts[i].inner + (em + Afters(sm, em, parts, post)[i]))))
  {
    OriginalAt(parts, i);
    KeptAround(sm, em, Original(parts), post, i);
  }

  lemma WrittenStep(sm: string, em: string, parts: seq<Part>, i: nat)
    requires i < |parts|
    ensures |Befores(sm, em, parts)[i + 1]|
            == |Befores(sm, em, parts)[i]| + |parts[i].gap| + |sm + parts[i].inner + em|
  {
    OriginalAt(parts, i);
    FlatTakeLength(sm, em, Original(parts), i);
  }

  /** The chapter as written is cut at its regions. */
  lemma WrittenCut(sm: string, em: string, parts: seq<Part>, post: string)
    ensures Cut(Written(sm, em, parts, post), sm, em, parts, Befores(sm, em, parts), Afters(sm, em, parts, post))
  {
    var before := Befores(sm, em, parts);
    var after := Afters(sm, em, parts, post);
    forall i | 0 <= i < |parts|
      ensures Written(sm, em, parts, post)
              == before[i] + (parts[i].gap + (sm + (parts[i].inner + (em + after[i]))))
    {
      WrittenAround(sm, em, parts, post, i);
    }
    forall i | 0 <= i < |parts|
      ensures |before[i + 1]| == |before[i]| + |parts[i].gap| + |sm + parts[i].inner + em|
    {
      WrittenStep(sm, em, parts, i);
    }
  }

  /** No start marker follows the last region. */
  lemma WrittenEnd(sm: string, em: string, parts: seq<Part>, post: string)
    requires !Contains(post, sm)
    ensures FindFrom(Written(sm, em, parts, post), sm, |Befores(sm, em, parts)[|parts|]|) == None
  {
    var o := Original(parts);
    assert o[..|parts|] == o;
    FindInFree(Flat(sm, em, o), post, sm);
  }

  /** The scan of a laid-out chapter yields its regions, in order. */
  lemma LaidOutCaptures(sm: string, em: string, parts: seq<Part>, post: string)
    requires LaidOut(sm, em, parts, post)
    ensures CapturesFrom(Written(sm, em, parts, post), sm, em, 0) == Found(sm, em, parts, Befores(sm, em, parts), 0)
  {
    var content := Written(sm, em, parts, post);
    var before := Befores(sm, em, parts);
    WrittenCut(sm, em, parts, post);
    WrittenEnd(sm, em, parts, post);
    CutScan(content, sm, em, parts, before, Afters(sm, em, parts, post), 0);
    assert Original(parts)[..0] == [];
    ScanYields(content, sm, em, Found(sm, em, parts, before, 0), 0);
  }

  // ---------------------------------------------------------------------
  // The loop over a laid-out chapter.

  /** What the spans of a stage are made of. */
  lemma StageSpans(sm: string, em: string, parts: seq<Part>, post: string,
                   parse: string -> seq<Event>, ids: nat -> string, k: nat)
    requires LaidOut(sm, em, parts, post) && WidgetsApart(sm, parts, parse, ids)
    requires k <= |parts|
    ensures var st := Stage(parts, parse, ids, k);
      forall i :: 0 <= i < |parts| ==>
        SpanOk(sm, em, st[i]) && st[i].gap == parts[i].gap
        && (st[i].Kept? ==> st[i].inner == parts[i].inner)
  {
    var st := Stage(parts, parse, ids, k);
    forall i | 0 <= i < |parts|
      ensures SpanOk(sm, em, st[i]) && st[i].gap == parts[i].gap
              && (st[i].Kept? ==> st[i].inner == parts[i].inner)
    {
      StageAt(parts, parse, ids, k, i);
      assert PartOk(sm, em, parts[i]);
    }
  }

  /** Turn `k` of the loop touches the `k`-th span only. */
  lemma StageNeighbours(parts: seq<Part>, parse: string -> seq<Event>, ids: nat -> string, k: nat)
    requires k < |parts|
    ensures var st := Stage(parts, parse, ids, k);
      var st' := Stage(parts, parse, ids, k + 1);
      st'[..k] == st[..k] && st'[k + 1..] == st[k + 1..]
      && st[k] == Kept(parts[k].gap, parts[k].inner) && st'[k] == Shown(parts[k], k, parse, ids)
  {
    var st := Stage(parts, parse, ids, k);
    var st' := Stage(parts, parse, ids, k + 1);
    StageAt(parts, parse, ids, k, k);
    StageAt(parts, parse, ids, k + 1, k);
    forall i | 0 <= i < k ensures st'[..k][i] == st[..k][i] {
      StageAt(parts, parse, ids, k, i);
      StageAt(parts, parse, ids, k + 1, i);
    }
    forall i | k + 1 <= i < |parts| ensures st'[i] == st[i] {
      StageAt(parts, parse, ids, k, i);
      StageAt(parts, parse, ids, k + 1, i);
    }
    assert st'[k + 1..] == st[k + 1..];
  }

  /** The spans before and after the `k`-th, at stage `k`, are well formed
      and hold no region like the `k`-th. */
  lemma StageSides(sm: string, em: string, parts: seq<Part>, post: string,
                   parse: string -> seq<Event>, ids: nat -> string, k: nat)
    requires LaidOut(sm, em, parts, post) && WidgetsApart(sm, parts, parse, ids)
    requires k < |parts|
    ensures var st := Stage(parts, parse, ids, k);
      var front := st[..k];
      var back := st[k + 1..];
      (forall i :: 0 <= i < |front| ==> SpanOk(sm, em, front[i]))
      && (forall i :: 0 <= i < |front| && front[i].Kept? ==> front[i].inner != parts[k].inner)
      && (forall i :: 0 <= i < |back| ==> SpanOk(sm, em, back[i]))
      && (forall i :: 0 <= i < |back| && back[i].Kept? ==> back[i].inner != parts[k].inner)
  {
    var st := Stage(parts, parse, ids, k);
    StageSpans(sm, em, parts, post, parse, ids, k);
    forall i | 0 <= i < k
      ensures SpanOk(sm, em, st[..k][i]) && (st[..k][i].Kept? ==> st[..k][i].inner != parts[k].inner)
    {
      assert st[..k][i] == st[i];
    }
    forall i | k + 1 <= i < |parts|
      ensures SpanOk(sm, em, st[i]) && (st[i].Kept? ==> st[i].inner != parts[k].inner)
    {
    }
  }

  /** The text of the spans, split around the body of the `k`-th. */
  lemma FlatSplit(sm: string, em: string, spans: seq<Span>, k: nat, post: string)
    requires k < |spans|
    ensures Flat(sm, em, spans) + post
            == (Flat(sm, em, spans[..k]) + spans[k].gap)
               + (Body(sm, em, spans[k]) + (Flat(sm, em, spans[k + 1..]) + post))
  {
    var a := Flat(sm, em, spans[..k]);
    var g := spans[k].gap;
    var body := Body(sm, em, spans[k]);
    var b := Flat(sm, em, spans[k + 1..]);
    FlatAround(sm, em, spans, k);
    AppendAssoc(a, g + body + b, post);
    AppendAssoc(g + body, b, post);
    AppendAssoc(g, body, b + post);
    AppendAssoc(a, g, body + (b + post));
  }

  /** A region other than those among `spans` does not begin inside their
      text followed by a gap. */
  lemma FrontMiss(sm: string, em: string, spans: seq<Span>, g: string, inner: string, back: string)
    requires MarkersApart(sm, em)
    requires forall i :: 0 <= i < |spans| ==> SpanOk(sm, em, spans[i])
    requires forall i :: 0 <= i < |spans| && spans[i].Kept? ==> spans[i].inner != inner
    requires !Contains(inner, em) && !Contains(g, sm)
    ensures forall j: nat :: j < |Flat(sm, em, spans) + g| ==>
              !At((Flat(sm, em, spans) + g) + ((sm + inner + em) + back), sm + inner + em, j)
  {
    var a := Flat(sm, em, spans);
    var r := sm + inner + em;
    var x := r + back;
    AppendAssoc(a, g, x);
    SpansMiss(sm, em, spans, inner, g + x);
    assert r[..|sm|] == sm;
    assert x[0] == sm[0];
    HeadBefore(g, x, sm);
    forall j: nat | |a| <= j < |a + g| ensures !At(a + (g + x), r, j) {
      if At(a + (g + x), r, j) {
        AtPrefixOfPattern(a + (g + x), r, sm, j);
        AtShift(a, g + x, sm, j - |a|);
      }
    }
  }

  /** Replacing a region that occurs once, between spans that hold no
      region like it, leaves those spans as they are. */
  lemma SpliceHere(sm: string, em: string, front: seq<Span>, g: string, inner: string, w: string,
                   back: seq<Span>, post: string)
    requires MarkersApart(sm, em)
    requires forall i :: 0 <= i < |front| ==> SpanOk(sm, em, front[i])
    requires forall i :: 0 <= i < |front| && front[i].Kept? ==> front[i].inner != inner
    requires forall i :: 0 <= i < |back| ==> SpanOk(sm, em, back[i])
    requires forall i :: 0 <= i < |back| && back[i].Kept? ==> back[i].inner != inner
    requires !Contains(g, sm) && !Contains(inner, em) && !Contains(post, sm)
    ensures var rest := Flat(sm, em, back) + post;
      ReplaceAll((Flat(sm, em, front) + g) + ((sm + inner + em) + rest), sm + inner + em, w)
      == (Flat(sm, em, front) + g) + (w + rest)
  {
    var rest := Flat(sm, em, back) + post;
    FrontMiss(sm, em, front, g, inner, rest);
    TailMiss(sm, em, back, inner, post);
    ReplaceUnique(Flat(sm, em, front) + g, sm + inner + em, rest, w);
  }

  /** One turn of the loop replaces the `k`-th region by its widget, when
      it has blocks, and changes nothing else. */
  lemma StageStep(sm: string, em: string, parts: seq<Part>, post: string,
                  parse: string -> seq<Event>, ids: nat -> string, k: nat, c: Capture)
    requires LaidOut(sm, em, parts, post) && WidgetsApart(sm, parts, parse, ids)
    requires k < |parts| && c.full == sm + parts[k].inner + em && c.inner == parts[k].inner
    ensures Splice(StageText(sm, em, parts, post, parse, ids, k), c, k, parse, ids)
            == StageText(sm, em, parts, post, parse, ids, k + 1)
  {
    var st := Stage(parts, parse, ids, k);
    var st' := Stage(parts, parse, ids, k + 1);
    var blocks := CodeBlocks(parse(c.inner));
    if blocks == [] {
      StageSame(parts, parse, ids, k);
    } else {
      var a := Flat(sm, em, st[..k]);
      var g := parts[k].gap;
      var w := TabsHtml(blocks, ids(k));
      var back := Flat(sm, em, st[k + 1..]) + post;
      StageSides(sm, em, parts, post, parse, ids, k);
      assert PartOk(sm, em, parts[k]);
      FlatSplit(sm, em, st, k, post);
      FlatSplit(sm, em, st', k, post);
      StageNeighbours(parts, parse, ids, k);
      SpliceHere(sm, em, st[..k], g, parts[k].inner, w, st[k + 1..], post);
    }
  }

  /** Every region the scan finds is non-empty. */
  lemma FoundFull(sm: string, em: string, parts: seq<Part>)
    requires sm != []
    ensures forall c :: c in Found(sm, em, parts, Befores(sm, em, parts), 0) ==> c.full != []
  {
    var found := Found(sm, em, parts, Befores(sm, em, parts), 0);
    FoundShape(sm, em, parts, Befores(sm, em, parts));
    forall c | c in found ensures c.full != [] {
      var i :| 0 <= i < |found| && found[i] == c;
    }
  }

  /** After `k` turns of the loop the text is the chapter with the first `k`
      regions handled. */
  lemma {:induction false} SpliceStages(sm: string, em: string, parts: seq<Part>, post: string,
                                        parse: string -> seq<Event>, ids: nat -> string, k: nat)
    requires LaidOut(sm, em, parts, post) && WidgetsApart(sm, parts, parse, ids)
    requires k <= |parts|
    ensures var found := Found(sm, em, parts, Befores(sm, em, parts), 0);
      (forall c :: c in found[..k] ==> c.full != [])
      && SpliceAll(Written(sm, em, parts, post), found[..k], parse, ids)
         == StageText(sm, em, parts, post, parse, ids, k)
  {
    var content := Written(sm, em, parts, post);
    var found := Found(sm, em, parts, Befores(sm, em, parts), 0);
    FoundFull(sm, em, parts);
    FoundShape(sm, em, parts, Befores(sm, em, parts));
    if k == 0 {
      assert found[..0] == [];
      StageNone(parts, parse, ids);
    } else {
      SpliceStages(sm, em, parts, post, parse, ids, k - 1);
      SpliceAllSnoc(content, found, k - 1, parse, ids);
      StageStep(sm, em, parts, post, parse, ids, k - 1, found[k - 1]);
    }
  }

  /** A chapter with at least one region holds both markers. */
  lemma ChapterMarked(sm: string, em: string, parts: seq<Part>, post: string)
    requires parts != []
    ensures Contains(Written(sm, em, parts, post), sm)
    ensures Contains(Written(sm, em, parts, post), em)
  {
    var o := Original(parts);
    var rest := Flat(sm, em, o[1..]) + post;
    OriginalAt(parts, 0);
    AppendAssoc(SpanText(sm, em, o[0]), Flat(sm, em, o[1..]), post);
    assert Flat(sm, em, o) + post == parts[0].gap + (sm + parts[0].inner + em) + rest;
    RegionHasMarkers(sm, em, parts[0].gap, parts[0].inner, rest);
  }

  /** When both markers occur, `process_markdown` splices every match the
      scan yields. */
  lemma MarkedSplices(content: string, sm: string, em: string, parse: string -> seq<Event>, ids: nat -> string,
                      caps: seq<Capture>)
    requires sm != [] && Contains(content, sm) && Contains(content, em)
    requires CapturesFrom(content, sm, em, 0) == caps
    ensures forall c :: c in caps ==> c.full != []
    ensures ProcessedWith(content, sm, em, parse, ids) == SpliceAll(content, caps, parse, ids)
  {
    CapturesNonEmpty(content, sm, em, 0);
  }

  /** A chapter without regions is left as it is. */
  lemma ChapterEmpty(sm: string, em: string, parts: seq<Part>, post: string,
                     parse: string -> seq<Event>, ids: nat -> string)
    requires sm != [] && parts == [] && !Contains(post, sm)
    ensures ProcessedWith(Written(sm, em, parts, post), sm, em, parse, ids)
            == Flat(sm, em, Rendered(parts, parse, ids)) + post
  {
    assert Original(parts) == [] && Rendered(parts, parse, ids) == [];
    assert Written(sm, em, parts, post) == post;
  }

  /** Once every region has been handled, the chapter is rendered. */
  lemma StageAll(sm: string, em: string, parts: seq<Part>, parse: string -> seq<Event>, ids: nat -> string)
    ensures Found(sm, em, parts, Befores(sm, em, parts), 0)[..|parts|] == Found(sm, em, parts, Befores(sm, em, parts), 0)
    ensures Stage(parts, parse, ids, |parts|) == Rendered(parts, parse, ids)
  {
  }

  /** For any markers that can be told apart: in a chapter laid out as
      gaps and marked regions, each region that holds code blocks becomes
      the widget for them, named by the id of its place in the scan, and
      every other region and every gap stays as it is. */
  lemma ChapterWith(sm: string, em: string, parts: seq<Part>, post: string,
                    parse: string -> seq<Event>, ids: nat -> string)
    requires LaidOut(sm, em, parts, post) && WidgetsApart(sm, parts, parse, ids)
    ensures ProcessedWith(Written(sm, em, parts, post), sm, em, parse, ids)
            == Flat(sm, em, Rendered(parts, parse, ids)) + post
  {
    if parts == [] {
      ChapterEmpty(sm, em, parts, post, parse, ids);
    } else {
      ChapterMarked(sm, em, parts, post);
      LaidOutCaptures(sm, em, parts, post);
      MarkedSplices(Written(sm, em, parts, post), sm, em, parse, ids, Found(sm, em, parts, Befores(sm, em, parts), 0));
      SpliceStages(sm, em, parts, post, parse, ids, |parts|);
      StageAll(sm, em, parts, parse, ids);
    }
  }

  /** The two markers of `process_markdown` can be told apart. */
  lemma MarkersOfSource()
    ensures MarkersApart(StartMarker, EndMarker)
    ensures StartMarker[0] == '<' && StartMarker[|StartMarker| - 1] == '>'
  {
    MarkerTails();
    assert StartMarker[14] != EndMarker[14];
    assert forall i :: 0 <= i < |StartMarker| - 1 ==> StartMarker[i] != '>';
  }

  /** The start marker is shaped like the comment openings the widget-freedom
      lemmas of the renderer speak of. */
  lemma StartIsComment()
    ensures CommentLike(StartMarker)
  {
    var m := StartMarker;
    assert forall i :: 1 <= i < |m| ==> m[i] != '<';
    assert forall i :: 0 <= i < |m| - 1 ==> m[i] != '>';
  }

  /** `process_markdown` on a chapter with any number of marked regions:
      each region that holds code blocks becomes the widget for them, named
      by the id of its place in the scan; every other region and every gap
      stays as it is. The widgets themselves hold no start marker as long
      as the ids do not. */
  lemma Chapter(parts: seq<Part>, post: string, parse: string -> seq<Event>, ids: nat -> string)
    requires RegionsApart(StartMarker, EndMarker, parts, post)
    requires forall i :: 0 <= i < |parts| ==> !Contains(ids(i), StartMarker)
    ensures Processed(Written(StartMarker, EndMarker, parts, post), parse, ids)
            == Flat(StartMarker, EndMarker, Rendered(parts, parse, ids)) + post
  {
    MarkersOfSource();
    StartIsComment();
    forall i | 0 <= i < |parts| && CodeBlocks(parse(parts[i].inner)) != []
      ensures !Contains(TabsHtml(CodeBlocks(parse(parts[i].inner)), ids(i)), StartMarker)
    {
      WidgetFree(CodeBlocks(parse(parts[i].inner)), ids(i), StartMarker);
    }
    ChapterWith(StartMarker, EndMarker, parts, post, parse, ids);
  }
}
