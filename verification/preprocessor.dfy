/** `process_markdown`: every region between a start marker and the next end
    marker is replaced by the tab widget for the fenced code blocks inside
    it. The markdown parser and the UUID generator are outside the model;
    the transform takes them as the parameters `parse` and `ids`. */
module Preprocessor {
  import opened Text
  import opened Extract
  import opened Render
  import opened Regions

  const StartMarker: string := "<!-- langtabs-start -->"
  const EndMarker: string := "<!-- langtabs-end -->"

  /** One turn of the loop: a region whose blocks are empty changes
      nothing; otherwise every occurrence of the whole match in the text so
      far is replaced by the widget, named by the `k`-th id. */
  function Splice(result: string, c: Capture, k: nat, parse: string -> seq<Event>, ids: nat -> string): string
    requires c.full != []
  {
    var blocks := CodeBlocks(parse(c.inner));
    if blocks == [] then result else ReplaceAll(result, c.full, TabsHtml(blocks, ids(k)))
  }

  /** The text after the loop has handled the captures `caps`, in order. */
  function SpliceAll(content: string, caps: seq<Capture>, parse: string -> seq<Event>, ids: nat -> string): string
    requires forall c :: c in caps ==> c.full != []
    decreases |caps|
  {
    if caps == [] then content
    else
      var k := |caps| - 1;
      Splice(SpliceAll(content, caps[..k], parse, ids), caps[k], k, parse, ids)
  }

  /** The splice after one more turn of the loop. */
  lemma SpliceAllSnoc(content: string, caps: seq<Capture>, k: nat, parse: string -> seq<Event>, ids: nat -> string)
    requires forall c :: c in caps ==> c.full != []
    requires k < |caps|
    ensures SpliceAll(content, caps[..k + 1], parse, ids)
            == Splice(SpliceAll(content, caps[..k], parse, ids), caps[k], k, parse, ids)
  {
    assert caps[..k + 1][..k] == caps[..k];
  }

  /** The splice of a single region. */
  lemma SpliceSingle(content: string, c: Capture, parse: string -> seq<Event>, ids: nat -> string)
    requires c.full != []
    ensures SpliceAll(content, [c], parse, ids) == Splice(content, c, 0, parse, ids)
  {
    assert [c][..0] == [];
  }

  /** What the transform returns for the markers `startMark` and `endMark`:
      the text itself when either marker is missing, otherwise the text
      after every region the scan yields has been handled, in order. */
  function ProcessedWith(content: string, startMark: string, endMark: string,
                         parse: string -> seq<Event>, ids: nat -> string): (r: string)
    requires startMark != []
    ensures !Contains(content, startMark) || !Contains(content, endMark) ==> r == content
  {
    if !Contains(content, startMark) || !Contains(content, endMark) then content
    else
      CapturesNonEmpty(content, startMark, endMark, 0);
      SpliceAll(content, CapturesFrom(content, startMark, endMark, 0), parse, ids)
  }

  /** What `process_markdown` returns, given the markdown parser and the
      ids the widgets are given in turn. */
  function Processed(content: string, parse: string -> seq<Event>, ids: nat -> string): string {
    ProcessedWith(content, StartMarker, EndMarker, parse, ids)
  }

  /** The loop of `process_markdown`, with the extractor and the renderer
      it calls. */
  method ProcessMarkdown(content: string, parse: string -> seq<Event>, ids: nat -> string)
    returns (result: string)
    ensures !Contains(content, StartMarker) || !Contains(content, EndMarker) ==> result == content
    ensures result == Processed(content, parse, ids)
  {
    var startComment, endComment := StartMarker, EndMarker;
    if !Contains(content, startComment) || !Contains(content, endComment) {
      return content;
    }
    var caps := CapturesFrom(content, startComment, endComment, 0);
    CapturesNonEmpty(content, startComment, endComment, 0);
    result := content;
    for k := 0 to |caps|
      invariant result == SpliceAll(content, caps[..k], parse, ids)
    {
      var c := caps[k];
      SpliceAllSnoc(content, caps, k, parse, ids);
      var langBlocks := ExtractCodeBlocks(parse(c.inner));
      if langBlocks != [] {
        var html := GenerateTabsHtml(langBlocks, ids(k));
        result := ReplaceAll(result, c.full, html);
      }
    }
    assert caps[..|caps|] == caps;
  }

  /** Regions without code blocks are left as they are. */
  lemma {:induction false} SpliceWithoutBlocks(content: string, caps: seq<Capture>,
                                               parse: string -> seq<Event>, ids: nat -> string)
    requires forall c :: c in caps ==> c.full != [] && CodeBlocks(parse(c.inner)) == []
    ensures SpliceAll(content, caps, parse, ids) == content
    decreases |caps|
  {
    if caps != [] {
      SpliceWithoutBlocks(content, caps[..|caps| - 1], parse, ids);
    }
  }

  /** A text none of whose regions holds a fenced block with a language is
      returned unchanged. */
  lemma NoBlocksNoChange(content: string, parse: string -> seq<Event>, ids: nat -> string)
    requires forall c :: c in CapturesFrom(content, StartMarker, EndMarker, 0) ==> CodeBlocks(parse(c.inner)) == []
    ensures Processed(content, parse, ids) == content
  {
    CapturesMatch(content, StartMarker, EndMarker, 0);
    SpliceWithoutBlocks(content, CapturesFrom(content, StartMarker, EndMarker, 0), parse, ids);
  }

  /** Each marker's first character occurs nowhere else in it, so a marker
      cannot overlap another copy of itself. */
  lemma MarkerHeads()
    ensures StartMarker[0] !in StartMarker[1..] && EndMarker[0] !in EndMarker[1..]
  {
    MarkerTails();
  }

  /** The same fact, index by index: the form the other proofs use. */
  lemma MarkerTails()
    ensures forall i :: 0 < i < |StartMarker| ==> StartMarker[i] != StartMarker[0]
    ensures forall i :: 0 < i < |EndMarker| ==> EndMarker[i] != EndMarker[0]
  {
  }

  /** End to end, for a text with one marked region and any markers that
      cannot overlap themselves: the region is replaced by the widget for
      its blocks, named by the first id, and the text around it is kept; a
      region without blocks is left as it is. */
  lemma OneRegionWith(sm: string, em: string, pre: string, inner: string, post: string,
                      parse: string -> seq<Event>, ids: nat -> string)
    requires sm != [] && sm[0] !in sm[1..]
    requires em != [] && em[0] !in em[1..]
    requires !Contains(pre, sm) && !Contains(inner, em) && !Contains(post, sm)
    ensures var content := pre + (sm + inner + em) + post;
      var blocks := CodeBlocks(parse(inner));
      ProcessedWith(content, sm, em, parse, ids)
      == if blocks == [] then content else pre + TabsHtml(blocks, ids(0)) + post
  {
    var full := sm + inner + em;
    var content := pre + full + post;
    var c := Capture(|pre|, full, inner);
    assert ProcessedWith(content, sm, em, parse, ids) == SpliceAll(content, [c], parse, ids) by {
      OneCapture(sm, em, pre, inner, post);
      RegionHasMarkers(sm, em, pre, inner, post);
    }
    SpliceSingle(content, c, parse, ids);
    var blocks := CodeBlocks(parse(inner));
    if blocks != [] {
      var html := TabsHtml(blocks, ids(0));
      assert sm <= full by {
        RegionHasMarkers(sm, em, pre, inner, post);
      }
      ReplaceOnly(pre, full, post, sm, html);
      AppendAssoc(pre, full, post);
      AppendAssoc(pre, html, post);
    }
  }

  /** End to end, for a text with one marked region: the region is replaced
      by the widget for its blocks, named by the first id, and the text
      around it is kept; a region without blocks is left as it is. */
  lemma OneRegion(pre: string, inner: string, post: string, parse: string -> seq<Event>, ids: nat -> string)
    requires !Contains(pre, StartMarker) && !Contains(inner, EndMarker) && !Contains(post, StartMarker)
    ensures var content := pre + (StartMarker + inner + EndMarker) + post;
      var blocks := CodeBlocks(parse(inner));
      Processed(content, parse, ids) == if blocks == [] then content else pre + TabsHtml(blocks, ids(0)) + post
  {
    MarkerHeads();
    OneRegionWith(StartMarker, EndMarker, pre, inner, post, parse, ids);
  }
}
