/** `generate_tabs_html`: the tab widget for the code blocks of one region,
    and a reader that takes a widget apart again, as the page's script sees
    it, so that what the markup encodes can be stated and proved. */
module Render {
  import opened Text
  import opened Languages
  import opened Escape
  import opened Extract

  /** Unicode White_Space, which `split_whitespace` splits on. */
  predicate IsWhitespace(c: char) {
    '\t' <= c <= '\r' || c == ' ' || c == '\U{85}' || c == '\U{A0}' || c == '\U{1680}'
    || '\U{2000}' <= c <= '\U{200A}' || c == '\U{2028}' || c == '\U{2029}'
    || c == '\U{202F}' || c == '\U{205F}' || c == '\U{3000}'
  }

  /** The index of the first non-whitespace character at or after `i`. */
  function SkipWhitespace(s: string, i: nat): (j: nat)
    requires i <= |s|
    ensures i <= j <= |s|
    ensures forall k :: i <= k < j ==> IsWhitespace(s[k])
    ensures j < |s| ==> !IsWhitespace(s[j])
    decreases |s| - i
  {
    if i == |s| || !IsWhitespace(s[i]) then i else SkipWhitespace(s, i + 1)
  }

  /** The index of the first whitespace character at or after `i`. */
  function TokenEnd(s: string, i: nat): (j: nat)
    requires i <= |s|
    ensures i <= j <= |s|
    ensures forall k :: i <= k < j ==> !IsWhitespace(s[k])
    ensures j < |s| ==> IsWhitespace(s[j])
    decreases |s| - i
  {
    if i == |s| || IsWhitespace(s[i]) then i else TokenEnd(s, i + 1)
  }

  /** `lang.split_whitespace().next().unwrap_or(lang)`: the first
      whitespace-separated word of the info string, or the whole string when
      it has none. */
  function CleanLang(lang: string): (r: string)
    ensures lang != [] ==> r != []
    ensures forall c :: c in r ==> c in lang
  {
    var i := SkipWhitespace(lang, 0);
    if i == |lang| then lang else lang[i..TokenEnd(lang, i)]
  }

  /** `word` sits at index `i` of `lang`, after nothing but whitespace, and
      ends where `lang` or a whitespace character does. */
  predicate LeadingWordAt(lang: string, word: string, i: nat) {
    i + |word| <= |lang| && word == lang[i..i + |word|]
    && (forall k :: 0 <= k < i ==> IsWhitespace(lang[k]))
    && (i + |word| == |lang| || IsWhitespace(lang[i + |word|]))
  }

  /** `CleanLang` is the first word: non-empty, free of whitespace, and led
      by nothing but whitespace; an info string that is all whitespace is
      kept whole. */
  lemma CleanLangIsFirstWord(lang: string)
    ensures (forall k :: 0 <= k < |lang| ==> IsWhitespace(lang[k])) ==> CleanLang(lang) == lang
    ensures (exists k :: 0 <= k < |lang| && !IsWhitespace(lang[k])) ==>
      var r := CleanLang(lang);
      r != [] && (forall k :: 0 <= k < |r| ==> !IsWhitespace(r[k]))
      && exists i: nat :: LeadingWordAt(lang, r, i)
  {
    var i := SkipWhitespace(lang, 0);
    if i < |lang| {
      var j := TokenEnd(lang, i);
      var r := lang[i..j];
      assert LeadingWordAt(lang, r, i);
    }
  }

  /** An info string without whitespace is its own `CleanLang`. */
  lemma CleanLangOfWord(lang: string)
    requires forall k :: 0 <= k < |lang| ==> !IsWhitespace(lang[k])
    ensures CleanLang(lang) == lang
  {
    if lang != [] {
      assert lang[0..|lang|] == lang;
    }
  }

  function TabClass(i: nat): string {
    if i == 0 then "langtabs-tab active" else "langtabs-tab"
  }

  function PaneClass(i: nat): string {
    if i == 0 then "langtabs-code active" else "langtabs-code"
  }

  /** The `format!` of one header button. */
  function ButtonOf(cls: string, lang: string, icon: string, name: string): string {
    "<button class=\"" + cls + "\" data-lang=\"" + lang + "\">" + icon + name + "</button>"
  }

  /** The `format!` that opens a content pane. */
  function PaneOpen(cls: string, lang: string): string {
    "<div class=\"" + cls + "\" data-lang=\"" + lang + "\">"
  }

  /** The `format!` of a pane's code element, around the escaped code. */
  function CodeOf(lang: string, escaped: string): string {
    "<pre><code class=\"language-" + lang + "\">" + escaped + "</code></pre>"
  }

  /** The header button of the `i`-th block. */
  function ButtonHtml(i: nat, b: Block): string {
    var lang := CleanLang(b.lang);
    ButtonOf(TabClass(i), lang, IconHtml(lang), DisplayName(lang))
  }

  /** The content pane of the `i`-th block, with its code escaped. */
  function PaneHtml(i: nat, b: Block): string {
    var lang := CleanLang(b.lang);
    PaneOpen(PaneClass(i), lang) + CodeOf(lang, HtmlEscape(b.code)) + "</div>"
  }

  function Buttons(blocks: seq<Block>): seq<string> {
    seq(|blocks|, i requires 0 <= i < |blocks| => ButtonHtml(i, blocks[i]))
  }

  function Panes(blocks: seq<Block>): seq<string> {
    seq(|blocks|, i requires 0 <= i < |blocks| => PaneHtml(i, blocks[i]))
  }

  /** Everything in front of the buttons. */
  function HeaderOpen(id: string): string {
    "<div class=\"langtabs\" id=\"" + ("langtabs-" + id) + "\">" + HeaderDiv
  }

  const HeaderDiv: string := "<div class=\"langtabs-header\">"
  const ContentOpen: string := "<div class=\"langtabs-content\">"

  /** The widget `generate_tabs_html` builds; `id` stands for the random
      UUID that names it. */
  function TabsHtml(blocks: seq<Block>, id: string): (r: string)
    ensures r == [] <==> blocks == []
    ensures r != [] ==> r[0] == '<' && r[|r| - 1] == '>'
  {
    if blocks == [] then ""
    else
      HeaderOpen(id) + Concat(Buttons(blocks)) + "</div>"
      + ContentOpen + Concat(Panes(blocks)) + "</div>" + "</div>"
  }

  /** The two loops of `generate_tabs_html`. */
  method GenerateTabsHtml(langBlocks: seq<Block>, id: string) returns (html: string)
    ensures html == TabsHtml(langBlocks, id)
  {
    if |langBlocks| == 0 {
      html := "";
      return;
    }
    var tabId := "langtabs-" + id;
    html := "<div class=\"langtabs\" id=\"" + tabId + "\">";
    html := html + HeaderDiv;
    ghost var buttons := Buttons(langBlocks);
    for i := 0 to |langBlocks|
      invariant html == HeaderOpen(id) + Concat(buttons[..i])
    {
      var cleanLang := CleanLang(langBlocks[i].lang);
      var cls := if i == 0 then "langtabs-tab active" else "langtabs-tab";
      var langDisplay := DisplayName(cleanLang);
      var iconHtml := IconHtml(cleanLang);
      var button := ButtonOf(cls, cleanLang, iconHtml, langDisplay);
      assert buttons[i] == button;
      ConcatTake(buttons, i);
      AppendAssoc(HeaderOpen(id), Concat(buttons[..i]), button);
      html := html + button;
    }
    assert buttons[..|langBlocks|] == buttons;
    html := html + "</div>";
    html := html + ContentOpen;
    ghost var before := html;
    ghost var panes := Panes(langBlocks);
    for i := 0 to |langBlocks|
      invariant html == before + Concat(panes[..i])
    {
      var cleanLang := CleanLang(langBlocks[i].lang);
      var cls := if i == 0 then "langtabs-code active" else "langtabs-code";
      var open := PaneOpen(cls, cleanLang);
      var body := CodeOf(cleanLang, HtmlEscape(langBlocks[i].code));
      assert panes[i] == open + body + "</div>";
      ConcatTake(panes, i);
      AppendAssoc(before, Concat(panes[..i]), panes[i]);
      AppendAssoc(html, open, body);
      AppendAssoc(html, open + body, "</div>");
      html := html + open;
      html := html + body;
      html := html + "</div>";
    }
    assert panes[..|langBlocks|] == panes;
    html := html + "</div>";
    html := html + "</div>";
  }

  // ---------------------------------------------------------------------
  // Reading a widget back.

  /** A header button as the page's script sees it: its class list and its
      `data-lang`. The reader accepts a button only when its content is the
      icon and label of that `data-lang`. */
  datatype TabView = TabView(classes: string, lang: string)

  /** A content pane: its class list, its `data-lang`, the language of its
      `<code>` element and the code it shows, unescaped. */
  datatype PaneView = PaneView(classes: string, lang: string, codeLang: string, code: string)

  datatype WidgetView = WidgetView(id: string, tabs: seq<TabView>, panes: seq<PaneView>)

  function ReadTab(s: string): (r: Option<(TabView, string)>)
    ensures r.Some? ==> |r.value.1| < |s|
  {
    var s1 :- Expect(s, "<button class=\"");
    var classes :- ReadUntil(s1, '"');
    var s2 :- Expect(classes.1, " data-lang=\"");
    var lang :- ReadUntil(s2, '"');
    var s3 :- Expect(lang.1, ">" + IconHtml(lang.0) + DisplayName(lang.0) + "</button>");
    Some((TabView(classes.0, lang.0), s3))
  }

  function ReadTabs(s: string): (seq<TabView>, string)
    decreases |s|
  {
    if "<button " <= s then
      match ReadTab(s)
      case None => ([], s)
      case Some(p) =>
        var (more, rest) := ReadTabs(p.1);
        ([p.0] + more, rest)
    else ([], s)
  }

  function ReadPane(s: string): (r: Option<(PaneView, string)>)
    ensures r.Some? ==> |r.value.1| < |s|
  {
    var s1 :- Expect(s, "<div class=\"");
    var classes :- ReadUntil(s1, '"');
    var s2 :- Expect(classes.1, " data-lang=\"");
    var lang :- ReadUntil(s2, '"');
    var s3 :- Expect(lang.1, ">");
    var s4 :- Expect(s3, "<pre><code class=\"language-");
    var codeLang :- ReadUntil(s4, '"');
    var s5 :- Expect(codeLang.1, ">");
    var code :- ReadUntil(s5, '<');
    var s6 :- Expect(code.1, "/code></pre>");
    var s7 :- Expect(s6, "</div>");
    Some((PaneView(classes.0, lang.0, codeLang.0, HtmlUnescape(code.0)), s7))
  }

  function ReadPanes(s: string): (seq<PaneView>, string)
    decreases |s|
  {
    if "<div class=\"" <= s then
      match ReadPane(s)
      case None => ([], s)
      case Some(p) =>
        var (more, rest) := ReadPanes(p.1);
        ([p.0] + more, rest)
    else ([], s)
  }

  function ReadWidget(s: string): Option<WidgetView> {
    var s1 :- Expect(s, "<div class=\"langtabs\" id=\"");
    var s2 :- Expect(s1, "langtabs-");
    var id :- ReadUntil(s2, '"');
    var s3 :- Expect(id.1, ">");
    var s4 :- Expect(s3, HeaderDiv);
    ReadBody(id.0, s4)
  }

  /** The buttons and panes after the widget's opening tags. */
  function ReadBody(id: string, s4: string): Option<WidgetView> {
    var (tabs, s5) := ReadTabs(s4);
    var s6 :- Expect(s5, "</div>");
    var s7 :- Expect(s6, ContentOpen);
    var panes :- ReadContent(s7);
    Some(WidgetView(id, tabs, panes))
  }

  /** The panes, then the closing tags of the content and of the widget,
      and nothing after them. */
  function ReadContent(s7: string): Option<seq<PaneView>> {
    var (panes, s8) := ReadPanes(s7);
    var s9 :- Expect(s8, "</div>");
    var s10 :- Expect(s9, "</div>");
    if s10 == [] then Some(panes) else None
  }

  /** What the widget for `blocks` should read back as. */
  function TabViews(blocks: seq<Block>): seq<TabView> {
    seq(|blocks|, i requires 0 <= i < |blocks| => TabView(TabClass(i), CleanLang(blocks[i].lang)))
  }

  function PaneViews(blocks: seq<Block>): seq<PaneView> {
    seq(|blocks|, i requires 0 <= i < |blocks| =>
      var lang := CleanLang(blocks[i].lang);
      PaneView(PaneClass(i), lang, lang, blocks[i].code))
  }

  /** Tags the widget can carry intact: the source writes them into
      attribute values without escaping, so a `"` would end the value. */
  predicate QuoteFree(blocks: seq<Block>) {
    forall i :: 0 <= i < |blocks| ==> '"' !in CleanLang(blocks[i].lang)
  }

  /** A button followed by more text, split where the reader splits it. */
  lemma ButtonShape(cls: string, lang: string, icon: string, name: string, rest: string)
    ensures ButtonOf(cls, lang, icon, name) + rest
            == "<button class=\"" + (cls + ['"'] + (" data-lang=\""
               + (lang + ['"'] + ((">" + icon + name + "</button>") + rest))))
  {
    assert "\" data-lang=\"" == ['"'] + " data-lang=\"";
    assert "\">" == ['"'] + ">";
  }

  /** Any button whose class and `data-lang` hold no `"`, and whose content
      is the icon and label of its `data-lang`, reads back as itself. */
  lemma ReadButtonOf(cls: string, lang: string, icon: string, name: string, rest: string)
    requires '"' !in cls && '"' !in lang
    requires icon == IconHtml(lang) && name == DisplayName(lang)
    ensures "<button " <= ButtonOf(cls, lang, icon, name) + rest
    ensures ReadTab(ButtonOf(cls, lang, icon, name) + rest) == Some((TabView(cls, lang), rest))
  {
    var tail := ">" + icon + name + "</button>";
    var s2 := " data-lang=\"" + (lang + ['"'] + (tail + rest));
    var s1 := cls + ['"'] + s2;
    ButtonShape(cls, lang, icon, name, rest);
    ExpectLiteral("<button class=\"", s1);
    ReadUntilSplits(cls, '"', s2);
    ExpectLiteral(" data-lang=\"", lang + ['"'] + (tail + rest));
    ReadUntilSplits(lang, '"', tail + rest);
    ExpectLiteral(tail, rest);
  }

  /** The `i`-th header button reads back as its class and its tag. */
  lemma ReadOneTab(i: nat, b: Block, rest: string)
    requires '"' !in CleanLang(b.lang)
    ensures "<button " <= ButtonHtml(i, b) + rest
    ensures ReadTab(ButtonHtml(i, b) + rest) == Some((TabView(TabClass(i), CleanLang(b.lang)), rest))
  {
    var lang := CleanLang(b.lang);
    ReadButtonOf(TabClass(i), lang, IconHtml(lang), DisplayName(lang), rest);
  }

  /** Reading the buttons from the `k`-th on reads the `k`-th and then the
      rest. */
  lemma ReadTabsStep(blocks: seq<Block>, k: nat, rest: string)
    requires k < |blocks| && QuoteFree(blocks)
    ensures var later := ReadTabs(Concat(Buttons(blocks)[k + 1..]) + rest);
      ReadTabs(Concat(Buttons(blocks)[k..]) + rest) == ([TabViews(blocks)[k]] + later.0, later.1)
  {
    var buttons := Buttons(blocks);
    assert buttons[k..][1..] == buttons[k + 1..];
    ConcatFront(buttons[k..], rest);
    ReadOneTab(k, blocks[k], Concat(buttons[k + 1..]) + rest);
  }

  lemma ReadTabsEnd(blocks: seq<Block>, rest: string)
    requires !("<button " <= rest)
    ensures ReadTabs(Concat(Buttons(blocks)[|blocks|..]) + rest) == (TabViews(blocks)[|blocks|..], rest)
  {
    assert Buttons(blocks)[|blocks|..] == [];
    assert Concat(Buttons(blocks)[|blocks|..]) + rest == rest;
    assert TabViews(blocks)[|blocks|..] == [];
  }

  lemma {:induction false} ReadAllTabs(blocks: seq<Block>, k: nat, rest: string)
    requires k <= |blocks| && QuoteFree(blocks)
    requires !("<button " <= rest)
    ensures ReadTabs(Concat(Buttons(blocks)[k..]) + rest) == (TabViews(blocks)[k..], rest)
    decreases |blocks| - k
  {
    if k == |blocks| {
      ReadTabsEnd(blocks, rest);
    } else {
      ReadTabsStep(blocks, k, rest);
      ReadAllTabs(blocks, k + 1, rest);
      SliceFront(TabViews(blocks), k);
    }
  }

  /** A pane's opening tag followed by more text, split where the reader
      splits it. */
  lemma PaneOpenShape(cls: string, lang: string, more: string)
    ensures PaneOpen(cls, lang) + more
            == "<div class=\"" + (cls + ['"'] + (" data-lang=\"" + (lang + ['"'] + (">" + more))))
  {
    assert "\" data-lang=\"" == ['"'] + " data-lang=\"";
    assert "\">" == ['"'] + ">";
  }

  /** A pane's code element and closing tag followed by more text, split
      where the reader splits it. */
  lemma CodeShape(lang: string, escaped: string, rest: string)
    ensures CodeOf(lang, escaped) + "</div>" + rest
            == "<pre><code class=\"language-" + (lang + ['"'] + (">"
               + (escaped + ['<'] + ("/code></pre>" + ("</div>" + rest)))))
  {
    var p, q, c, d := "<pre><code class=\"language-", "\">", "</code></pre>", "</div>";
    var y := escaped + ['<'] + ("/code></pre>" + (d + rest));
    assert q == ['"'] + ">";
    assert c == ['<'] + "/code></pre>";
    calc {
      p + lang + q + escaped + c + d + rest;
      { AppendAssoc(p + lang + q + escaped + c, d, rest); }
      p + lang + q + escaped + c + (d + rest);
      { AppendAssoc(p + lang + q + escaped, c, d + rest); }
      p + lang + q + escaped + (c + (d + rest));
      { AppendAssoc(['<'], "/code></pre>", d + rest);
        AppendAssoc(escaped, ['<'], "/code></pre>" + (d + rest));
        AppendAssoc(p + lang + q, escaped, c + (d + rest)); }
      p + lang + q + y;
      { AppendAssoc(p + lang, q, y); }
      p + lang + (q + y);
      { AppendAssoc(['"'], ">", y); }
      p + lang + (['"'] + (">" + y));
      { AppendAssoc(p, lang, ['"'] + (">" + y));
        AppendAssoc(lang, ['"'], ">" + y); }
      p + (lang + ['"'] + (">" + y));
    }
  }

  /** Any pane whose class and `data-lang` hold no `"` and whose escaped
      code holds no `<` reads back as itself, with its code unescaped. */
  lemma ReadPaneOf(cls: string, lang: string, escaped: string, rest: string)
    requires '"' !in cls && '"' !in lang && '<' !in escaped
    ensures ReadPane(PaneOpen(cls, lang) + CodeOf(lang, escaped) + "</div>" + rest)
            == Some((PaneView(cls, lang, lang, HtmlUnescape(escaped)), rest))
  {
    var s6 := "</div>" + rest;
    var s5 := "/code></pre>" + s6;
    var s4 := escaped + ['<'] + s5;
    var s3 := lang + ['"'] + (">" + s4);
    var code := "<pre><code class=\"language-" + s3;
    var s2 := lang + ['"'] + (">" + code);
    var s1 := cls + ['"'] + (" data-lang=\"" + s2);
    CodeShape(lang, escaped, rest);
    PaneOpenShape(cls, lang, code);
    var open, body := PaneOpen(cls, lang), CodeOf(lang, escaped);
    AppendAssoc(open + body, "</div>", rest);
    AppendAssoc(open, body, "</div>" + rest);
    AppendAssoc(body, "</div>", rest);
    ExpectLiteral("<div class=\"", s1);
    ReadUntilSplits(cls, '"', " data-lang=\"" + s2);
    ExpectLiteral(" data-lang=\"", s2);
    ReadUntilSplits(lang, '"', ">" + code);
    ExpectLiteral(">", code);
    ExpectLiteral("<pre><code class=\"language-", s3);
    ReadUntilSplits(lang, '"', ">" + s4);
    ExpectLiteral(">", s4);
    ReadUntilSplits(escaped, '<', s5);
    ExpectLiteral("/code></pre>", s6);
    ExpectLiteral("</div>", rest);
  }

  /** The `i`-th pane reads back as its class, its tag and its block's code. */
  lemma ReadOnePane(i: nat, b: Block, rest: string)
    requires '"' !in CleanLang(b.lang)
    ensures "<div class=\"" <= PaneHtml(i, b) + rest
    ensures ReadPane(PaneHtml(i, b) + rest)
            == Some((PaneView(PaneClass(i), CleanLang(b.lang), CleanLang(b.lang), b.code), rest))
  {
    var lang := CleanLang(b.lang);
    var escaped := HtmlEscape(b.code);
    EscapeRemovesMarkup(b.code);
    UnescapeEscape(b.code);
    ReadPaneOf(PaneClass(i), lang, escaped, rest);
    var more := CodeOf(lang, escaped) + "</div>" + rest;
    var open := PaneOpen(PaneClass(i), lang);
    AppendAssoc(open + CodeOf(lang, escaped), "</div>", rest);
    AppendAssoc(open, CodeOf(lang, escaped), "</div>" + rest);
    AppendAssoc(CodeOf(lang, escaped), "</div>", rest);
    assert PaneHtml(i, b) + rest == open + more;
    PaneOpenShape(PaneClass(i), lang, more);
  }

  /** Reading the panes from the `k`-th on reads the `k`-th and then the
      rest. */
  lemma ReadPanesStep(blocks: seq<Block>, k: nat, rest: string)
    requires k < |blocks| && QuoteFree(blocks)
    ensures var later := ReadPanes(Concat(Panes(blocks)[k + 1..]) + rest);
      ReadPanes(Concat(Panes(blocks)[k..]) + rest) == ([PaneViews(blocks)[k]] + later.0, later.1)
  {
    var panes := Panes(blocks);
    assert panes[k..][1..] == panes[k + 1..];
    ConcatFront(panes[k..], rest);
    ReadOnePane(k, blocks[k], Concat(panes[k + 1..]) + rest);
  }

  lemma ReadPanesEnd(blocks: seq<Block>, rest: string)
    requires !("<div class=\"" <= rest)
    ensures ReadPanes(Concat(Panes(blocks)[|blocks|..]) + rest) == (PaneViews(blocks)[|blocks|..], rest)
  {
    assert Panes(blocks)[|blocks|..] == [];
    assert Concat(Panes(blocks)[|blocks|..]) + rest == rest;
    assert PaneViews(blocks)[|blocks|..] == [];
  }

  lemma {:induction false} ReadAllPanes(blocks: seq<Block>, k: nat, rest: string)
    requires k <= |blocks| && QuoteFree(blocks)
    requires !("<div class=\"" <= rest)
    ensures ReadPanes(Concat(Panes(blocks)[k..]) + rest) == (PaneViews(blocks)[k..], rest)
    decreases |blocks| - k
  {
    if k == |blocks| {
      ReadPanesEnd(blocks, rest);
    } else {
      ReadPanesStep(blocks, k, rest);
      ReadAllPanes(blocks, k + 1, rest);
      SliceFront(PaneViews(blocks), k);
    }
  }

  /** The widget's opening tags followed by more text, split where the
      reader splits them. */
  lemma HeaderShape(id: string, more: string)
    ensures HeaderOpen(id) + more
            == "<div class=\"langtabs\" id=\"" + ("langtabs-" + (id + ['"'] + (">" + (HeaderDiv + more))))
  {
    var a, l, q, h := "<div class=\"langtabs\" id=\"", "langtabs-", "\">", HeaderDiv;
    var y := ">" + (h + more);
    assert q == ['"'] + ">";
    calc {
      a + (l + id) + q + h + more;
      { AppendAssoc(a + (l + id) + q, h, more); }
      a + (l + id) + q + (h + more);
      { AppendAssoc(a + (l + id), q, h + more); }
      a + (l + id) + (q + (h + more));
      { AppendAssoc(['"'], ">", h + more); }
      a + (l + id) + (['"'] + y);
      { AppendAssoc(a, l + id, ['"'] + y); }
      a + ((l + id) + (['"'] + y));
      { AppendAssoc(l, id, ['"'] + y); AppendAssoc(id, ['"'], y); }
      a + (l + (id + ['"'] + y));
    }
  }

  /** The widget split where the reader splits it, for any buttons and
      panes. */
  lemma WidgetShape(id: string, buttons: string, panes: string)
    ensures HeaderOpen(id) + buttons + "</div>" + ContentOpen + panes + "</div>" + "</div>"
            == "<div class=\"langtabs\" id=\"" + ("langtabs-" + (id + ['"'] + (">" + (HeaderDiv
               + (buttons + ("</div>" + (ContentOpen + (panes + ("</div>" + "</div>")))))))))
  {
    var h, d, c := HeaderOpen(id), "</div>", ContentOpen;
    var tail := d + (c + (panes + (d + d)));
    calc {
      h + buttons + d + c + panes + d + d;
      { AppendAssoc(h + buttons + d + c + panes, d, d); }
      h + buttons + d + c + panes + (d + d);
      { AppendAssoc(h + buttons + d + c, panes, d + d); }
      h + buttons + d + c + (panes + (d + d));
      { AppendAssoc(h + buttons + d, c, panes + (d + d)); }
      h + buttons + d + (c + (panes + (d + d)));
      { AppendAssoc(h + buttons, d, c + (panes + (d + d))); }
      h + buttons + tail;
      { AppendAssoc(h, buttons, tail); }
      h + (buttons + tail);
      { HeaderShape(id, buttons + tail); }
      "<div class=\"langtabs\" id=\"" + ("langtabs-" + (id + ['"'] + (">" + (HeaderDiv + (buttons + tail)))));
    }
  }

  /** All the buttons, then text that is not a button. */
  lemma ReadButtons(blocks: seq<Block>, rest: string)
    requires QuoteFree(blocks) && !("<button " <= rest)
    ensures ReadTabs(Concat(Buttons(blocks)) + rest) == (TabViews(blocks), rest)
  {
    ReadAllTabs(blocks, 0, rest);
    assert Buttons(blocks)[0..] == Buttons(blocks);
    assert TabViews(blocks)[0..] == TabViews(blocks);
  }

  /** All the panes, then text that is not a pane. */
  lemma ReadPanesAll(blocks: seq<Block>, rest: string)
    requires QuoteFree(blocks) && !("<div class=\"" <= rest)
    ensures ReadPanes(Concat(Panes(blocks)) + rest) == (PaneViews(blocks), rest)
  {
    ReadAllPanes(blocks, 0, rest);
    assert Panes(blocks)[0..] == Panes(blocks);
    assert PaneViews(blocks)[0..] == PaneViews(blocks);
  }

  /** The widget reads back as its id, one button per block and then one
      pane per block, in block order. */
  lemma ReadContentBack(blocks: seq<Block>)
    requires QuoteFree(blocks)
    ensures ReadContent(Concat(Panes(blocks)) + ("</div>" + "</div>")) == Some(PaneViews(blocks))
  {
    var d := "</div>";
    assert (d + d)[1] == '/';
    ReadPanesAll(blocks, d + d);
    ExpectLiteral(d, d);
    assert d == d + [];
    ExpectLiteral(d, []);
  }

  lemma ReadBodyBack(blocks: seq<Block>, id: string)
    requires QuoteFree(blocks)
    ensures var d := "</div>";
      ReadBody(id, Concat(Buttons(blocks)) + (d + (ContentOpen + (Concat(Panes(blocks)) + (d + d)))))
      == Some(WidgetView(id, TabViews(blocks), PaneViews(blocks)))
  {
    var d := "</div>";
    var s7 := Concat(Panes(blocks)) + (d + d);
    var s5 := d + (ContentOpen + s7);
    assert s5[1] == '/';
    ReadButtons(blocks, s5);
    ExpectLiteral(d, ContentOpen + s7);
    ExpectLiteral(ContentOpen, s7);
    ReadContentBack(blocks);
  }

  lemma ReadWidgetBack(blocks: seq<Block>, id: string)
    requires blocks != [] && '"' !in id && QuoteFree(blocks)
    ensures ReadWidget(TabsHtml(blocks, id)) == Some(WidgetView(id, TabViews(blocks), PaneViews(blocks)))
  {
    var d := "</div>";
    var buttons, panes := Concat(Buttons(blocks)), Concat(Panes(blocks));
    var s4 := buttons + (d + (ContentOpen + (panes + (d + d))));
    var s2 := id + ['"'] + (">" + (HeaderDiv + s4));
    WidgetShape(id, buttons, panes);
    ExpectLiteral("<div class=\"langtabs\" id=\"", "langtabs-" + s2);
    ExpectLiteral("langtabs-", s2);
    ReadUntilSplits(id, '"', ">" + (HeaderDiv + s4));
    ExpectLiteral(">", HeaderDiv + s4);
    ExpectLiteral(HeaderDiv, s4);
    ReadBodyBack(blocks, id);
  }

  /** What the widget promises the page: as many buttons as panes as blocks,
      in block order; only the first button and the first pane carry the
      `active` class; button i and pane i share the `data-lang` of block i,
      which is also the pane's code language; and each pane shows its
      block's code exactly, once unescaped. */
  lemma WidgetLayout(blocks: seq<Block>, id: string)
    requires blocks != [] && '"' !in id && QuoteFree(blocks)
    ensures var w := ReadWidget(TabsHtml(blocks, id));
      w.Some? && w.value.id == id
      && |w.value.tabs| == |blocks| && |w.value.panes| == |blocks|
      && forall i :: 0 <= i < |blocks| ==>
           var tab, pane := w.value.tabs[i], w.value.panes[i];
           (tab.classes == "langtabs-tab active" <==> i == 0)
           && (tab.classes == "langtabs-tab" <==> i != 0)
           && (pane.classes == "langtabs-code active" <==> i == 0)
           && (pane.classes == "langtabs-code" <==> i != 0)
           && tab.lang == pane.lang == pane.codeLang == CleanLang(blocks[i].lang)
           && pane.code == blocks[i].code
  {
    ReadWidgetBack(blocks, id);
  }

  // ---------------------------------------------------------------------
  // A widget holds no marker comment.

  /** A marker shaped like an HTML comment opening `<!-- `, holding no
      other `<` and no `"`, with `>` only as its last character, and at
      least 20 characters long (longer than any label in the tables). */
  predicate CommentLike(pat: string) {
    |pat| >= 20 && pat[0] == '<' && pat[1] == '!' && pat[4] == ' '
    && '<' !in pat[1..] && '"' !in pat && '>' !in pat[..|pat| - 1]
  }

  /** Where two texts meet, no copy of the marker can straddle the seam:
      the second begins with `<` or `"`, or the first ends with `"` or `>`,
      or the first holds no `!` and does not end with `<`. */
  predicate Seam(a: string, b: string) {
    (b != [] && (b[0] == '<' || b[0] == '"'))
    || (a != [] && (a[|a| - 1] == '"' || a[|a| - 1] == '>'))
    || ('!' !in a && (a == [] || a[|a| - 1] != '<'))
  }

  /** Two texts free of the marker, joined at a seam, are free of it. */
  lemma Join(a: string, b: string, pat: string)
    requires CommentLike(pat) && !Contains(a, pat) && !Contains(b, pat) && Seam(a, b)
    ensures !Contains(a + b, pat)
  {
    var s := a + b;
    forall j | 0 <= j <= |s| ensures !At(s, pat, j) {
      if j + |pat| <= |a| {
        assert s[j..j + |pat|] == a[j..j + |pat|];
        assert !At(a, pat, j);
      } else if |a| <= j {
        AtShift(a, b, pat, j - |a|);
        assert !At(b, pat, j - |a|);
      } else if j + |pat| <= |s| {
        var k := |a| - j;
        if b != [] && (b[0] == '<' || b[0] == '"') {
          assert s[j + k] == b[0] && pat[k] in pat[1..];
          assert s[j..j + |pat|][k] != pat[k];
        } else if a != [] && (a[|a| - 1] == '"' || a[|a| - 1] == '>') {
          assert s[j + k - 1] == a[|a| - 1] && pat[k - 1] in pat[..|pat| - 1];
          assert s[j..j + |pat|][k - 1] != pat[k - 1];
        } else if k == 1 {
          assert s[j] == a[|a| - 1];
          assert s[j..j + |pat|][0] != pat[0];
        } else {
          assert s[j + 1] == a[j + 1] && a[j + 1] in a;
          assert s[j..j + |pat|][1] != pat[1];
        }
      }
    }
  }

  /** A text without `!`, or without `<`, or without a space, is free of the
      marker. */
  lemma Lacks(s: string, pat: string)
    requires CommentLike(pat) && ('!' !in s || '<' !in s || ' ' !in s)
    ensures !Contains(s, pat)
  {
    forall j | 0 <= j <= |s| && j + |pat| <= |s| ensures !At(s, pat, j) {
      var w := s[j..j + |pat|];
      if '!' !in s {
        assert s[j + 1] in s;
        assert w[1] != pat[1];
      } else if '<' !in s {
        assert s[j] in s;
        assert w[0] != pat[0];
      } else {
        assert s[j + 4] in s;
        assert w[4] != pat[4];
      }
    }
  }

  /** A tag is one word or all whitespace, so it holds no space or no `<`. */
  lemma TagLacks(lang: string)
    ensures var t := CleanLang(lang); ' ' !in t || '<' !in t
  {
    CleanLangIsFirstWord(lang);
    var t := CleanLang(lang);
    if exists k :: 0 <= k < |lang| && !IsWhitespace(lang[k]) {
      assert forall k :: 0 <= k < |t| ==> t[k] != ' ';
    } else {
      assert forall k :: 0 <= k < |t| ==> t[k] != '<';
    }
  }

  /** The label of a tag is free of the marker: a label from the table is
      too short to hold it, and any other label is the tag itself. */
  lemma NameFree(lang: string, pat: string)
    requires CommentLike(pat)
    ensures !Contains(DisplayName(CleanLang(lang)), pat)
  {
    var t := CleanLang(lang);
    var name := DisplayName(t);
    TagLacks(lang);
    NamesShort(ToLower(t));
    if DisplayNameEntry(ToLower(t)).Some? {
      assert |name| < |pat|;
    } else {
      Lacks(name, pat);
    }
  }

  /** The icon of a tag is free of the marker and ends with `>`: a copy of
      the marker inside the icon class would have to start within its
      `devicon-` prefix, which holds no `<`. */
  lemma IconFree(lang: string, pat: string)
    requires CommentLike(pat)
    ensures var h := IconHtml(lang); !Contains(h, pat) && h[|h| - 1] == '>'
  {
    var cls := IconClass(lang);
    IconsShort(ToLower(lang));
    forall j | 0 <= j <= |cls| ensures !At(cls, pat, j) {
      if j + |pat| <= |cls| {
        assert cls[j] == "devicon-"[j] && "devicon-"[j] in "devicon-";
        assert cls[j..j + |pat|][0] != pat[0];
      }
    }
    Lacks(IconOpen, pat);
    Lacks(IconClose, pat);
    Join(IconOpen, cls, pat);
    Join(IconOpen + cls, IconClose, pat);
  }

  /** An opening tag `<... class="cls" data-lang="lang">` is free of the
      marker and ends with `>`. */
  lemma OpenFree(start: string, cls: string, lang: string, pat: string)
    requires CommentLike(pat) && '!' !in start + cls && (' ' !in lang || '<' !in lang)
    ensures var h := start + cls + "\" data-lang=\"" + lang + "\">";
            !Contains(h, pat) && h[|h| - 1] == '>'
  {
    var p := start + cls + "\" data-lang=\"";
    Lacks(p, pat);
    Lacks(lang, pat);
    Lacks("\">", pat);
    Join(p, lang, pat);
    Join(p + lang, "\">", pat);
  }

  /** The code block of a pane is free of the marker and ends with `>`. */
  lemma CodeFree(lang: string, code: string, pat: string)
    requires CommentLike(pat) && (' ' !in lang || '<' !in lang)
    ensures var h := CodeOf(lang, HtmlEscape(code)); !Contains(h, pat) && h[|h| - 1] == '>'
  {
    var esc := HtmlEscape(code);
    var c1 := "<pre><code class=\"language-";
    var c3 := c1 + lang + "\">";
    EscapeRemovesMarkup(code);
    Lacks(c1, pat);
    Lacks(lang, pat);
    Lacks("\">", pat);
    Lacks(esc, pat);
    Lacks("</code></pre>", pat);
    Join(c1, lang, pat);
    Join(c1 + lang, "\">", pat);
    Join(c3, esc, pat);
    Join(c3 + esc, "</code></pre>", pat);
  }

  /** A header button is free of the marker and ends with `>`. */
  lemma ButtonFree(i: nat, b: Block, pat: string)
    requires CommentLike(pat)
    ensures var h := ButtonHtml(i, b); !Contains(h, pat) && h != [] && h[|h| - 1] == '>'
  {
    var lang := CleanLang(b.lang);
    var icon := IconHtml(lang);
    var name := DisplayName(lang);
    var p := "<button class=\"" + TabClass(i) + "\" data-lang=\"" + lang + "\">";
    TagLacks(b.lang);
    OpenFree("<button class=\"", TabClass(i), lang, pat);
    IconFree(lang, pat);
    NameFree(b.lang, pat);
    Lacks("</button>", pat);
    Join(p, icon, pat);
    Join(p + icon, name, pat);
    Join(p + icon + name, "</button>", pat);
  }

  /** A content pane is free of the marker and ends with `>`. */
  lemma PaneFree(i: nat, b: Block, pat: string)
    requires CommentLike(pat)
    ensures var h := PaneHtml(i, b); !Contains(h, pat) && h != [] && h[|h| - 1] == '>'
  {
    var lang := CleanLang(b.lang);
    var open := PaneOpen(PaneClass(i), lang);
    var code := CodeOf(lang, HtmlEscape(b.code));
    TagLacks(b.lang);
    OpenFree("<div class=\"", PaneClass(i), lang, pat);
    CodeFree(lang, b.code, pat);
    Lacks("</div>", pat);
    Join(open, code, pat);
    Join(open + code, "</div>", pat);
  }

  /** Pieces free of the marker, each ending with `>`, join into a text
      free of it. */
  lemma {:induction false} ConcatFree(parts: seq<string>, pat: string)
    requires CommentLike(pat)
    requires forall i :: 0 <= i < |parts| ==>
      !Contains(parts[i], pat) && parts[i] != [] && parts[i][|parts[i]| - 1] == '>'
    ensures !Contains(Concat(parts), pat)
    ensures Concat(parts) == [] || Concat(parts)[|Concat(parts)| - 1] == '>'
    decreases |parts|
  {
    if parts == [] {
      Lacks([], pat);
    } else {
      ConcatFree(parts[1..], pat);
      Join(parts[0], Concat(parts[1..]), pat);
    }
  }

  /** The opening of a widget is free of the marker when its id is. */
  lemma HeaderFree(id: string, pat: string)
    requires CommentLike(pat) && !Contains(id, pat)
    ensures var h := HeaderOpen(id); !Contains(h, pat) && h[|h| - 1] == '>'
  {
    var tag := "langtabs-" + id;
    var h1 := "<div class=\"langtabs\" id=\"" + tag;
    Lacks("langtabs-", pat);
    Lacks("<div class=\"langtabs\" id=\"", pat);
    Lacks("\">", pat);
    Lacks(HeaderDiv, pat);
    Join("langtabs-", id, pat);
    Join("<div class=\"langtabs\" id=\"", tag, pat);
    Join(h1, "\">", pat);
    Join(h1 + "\">", HeaderDiv, pat);
  }

  /** The buttons and panes of a widget are free of the marker, and each
      run is empty or ends with `>`. */
  lemma RunsFree(blocks: seq<Block>, pat: string)
    requires CommentLike(pat)
    ensures var bs := Concat(Buttons(blocks)); !Contains(bs, pat) && (bs == [] || bs[|bs| - 1] == '>')
    ensures var ps := Concat(Panes(blocks)); !Contains(ps, pat) && (ps == [] || ps[|ps| - 1] == '>')
  {
    forall i | 0 <= i < |blocks|
      ensures var h := Buttons(blocks)[i]; !Contains(h, pat) && h != [] && h[|h| - 1] == '>'
    {
      ButtonFree(i, blocks[i], pat);
    }
    forall i | 0 <= i < |blocks|
      ensures var h := Panes(blocks)[i]; !Contains(h, pat) && h != [] && h[|h| - 1] == '>'
    {
      PaneFree(i, blocks[i], pat);
    }
    ConcatFree(Buttons(blocks), pat);
    ConcatFree(Panes(blocks), pat);
  }

  /** A marker-free text ending with `>`, followed by a marker-free run
      (empty or ending with `>`) and two closing tags, is free of the marker. */
  lemma CloseFree(w: string, run: string, pat: string)
    requires CommentLike(pat) && !Contains(w, pat) && w != [] && w[|w| - 1] == '>'
    requires !Contains(run, pat) && (run == [] || run[|run| - 1] == '>')
    ensures var h := w + run + "</div>"; !Contains(h, pat) && h[|h| - 1] == '>'
  {
    Lacks("</div>", pat);
    Join(w, run, pat);
    Join(w + run, "</div>", pat);
  }

  /** A widget's frame around a marker-free head and two marker-free runs,
      each empty or ending with `>`, is free of the marker. */
  lemma ShellFree(head: string, bs: string, ps: string, pat: string)
    requires CommentLike(pat) && !Contains(head, pat) && head != [] && head[|head| - 1] == '>'
    requires !Contains(bs, pat) && (bs == [] || bs[|bs| - 1] == '>')
    requires !Contains(ps, pat) && (ps == [] || ps[|ps| - 1] == '>')
    ensures !Contains(head + bs + "</div>" + ContentOpen + ps + "</div>" + "</div>", pat)
  {
    var w := head + bs + "</div>";
    CloseFree(head, bs, pat);
    Lacks(ContentOpen, pat);
    Join(w, ContentOpen, pat);
    CloseFree(w + ContentOpen, ps, pat);
    Join(w + ContentOpen + ps + "</div>", "</div>", pat);
  }

  /** The widget holds the marker only if its id does: text the renderer
      has produced can be scanned again without matching a marker in it. */
  lemma WidgetFree(blocks: seq<Block>, id: string, pat: string)
    requires CommentLike(pat) && !Contains(id, pat)
    ensures !Contains(TabsHtml(blocks, id), pat)
  {
    if blocks == [] {
      Lacks([], pat);
    } else {
      RunsFree(blocks, pat);
      HeaderFree(id, pat);
      ShellFree(HeaderOpen(id), Concat(Buttons(blocks)), Concat(Panes(blocks)), pat);
    }
  }
}
