/** `extract_code_blocks`: a fold over the markdown parser's events that
    collects the fenced code blocks of one marked region, with their info
    strings, in the order they occur. */
module Extract {
  import opened Text

  /** The parser events the extractor tells apart; every other event of the
      markdown parser, including the start of an indented code block, is
      `Other`. */
  datatype Event =
    | FencedStart(info: string)   // start of a fenced code block, with its info string
    | CodeBlockEnd                // end of any code block, fenced or indented
    | Prose(text: string)         // text, inside a code block or not
    | Code(text: string)          // inline code
    | Other

  /** One extracted block: the whole info string and the code it holds. */
  datatype Block = Block(lang: string, code: string)

  /** The extractor's three mutable variables. */
  datatype State = State(inBlock: bool, lang: string, code: string)

  const Initial: State := State(false, "", "")

  /** The state after one event. */
  function Next(st: State, e: Event): State {
    match e
    case FencedStart(info) => State(true, info, "")
    case CodeBlockEnd => st.(inBlock := false)
    case Prose(t) => if st.inBlock then st.(code := st.code + t) else st
    case Code(t) => if st.inBlock then st.(code := st.code + t) else st
    case Other => st
  }

  /** The block one event pushes, if any: only the end of a block opened by
      a fenced start with a non-empty info string pushes one. */
  function Emitted(st: State, e: Event): seq<Block> {
    if e.CodeBlockEnd? && st.inBlock && st.lang != "" then [Block(st.lang, st.code)] else []
  }

  /** The blocks pushed while reading `events` from state `st`. */
  function ExtractFrom(st: State, events: seq<Event>): (blocks: seq<Block>)
    ensures forall b :: b in blocks ==> b.lang != ""
    ensures |blocks| <= |events|
    decreases |events|
  {
    if events == [] then []
    else Emitted(st, events[0]) + ExtractFrom(Next(st, events[0]), events[1..])
  }

  /** The state after reading `events` from `st`. */
  function After(st: State, events: seq<Event>): State
    decreases |events|
  {
    if events == [] then st else After(Next(st, events[0]), events[1..])
  }

  /** What `extract_code_blocks` returns for the parser's events. */
  function CodeBlocks(events: seq<Event>): seq<Block> {
    ExtractFrom(Initial, events)
  }

  /** Reading the events from the `i`-th on: what the `i`-th pushes, then
      the rest. */
  lemma ExtractStep(st: State, events: seq<Event>, i: nat)
    requires i < |events|
    ensures ExtractFrom(st, events[i..])
            == Emitted(st, events[i]) + ExtractFrom(Next(st, events[i]), events[i + 1..])
  {
    assert events[i..][1..] == events[i + 1..];
  }

  /** The loop of `extract_code_blocks`, over the parser's events. */
  method ExtractCodeBlocks(events: seq<Event>) returns (codeBlocks: seq<Block>)
    ensures codeBlocks == CodeBlocks(events)
  {
    codeBlocks := [];
    var currentLang, currentCode := "", "";
    var inCodeBlock := false;
    for i := 0 to |events|
      invariant codeBlocks + ExtractFrom(State(inCodeBlock, currentLang, currentCode), events[i..])
                == CodeBlocks(events)
    {
      ghost var st, before := State(inCodeBlock, currentLang, currentCode), codeBlocks;
      ExtractStep(st, events, i);
      AppendAssoc(before, Emitted(st, events[i]), ExtractFrom(Next(st, events[i]), events[i + 1..]));
      match events[i] {
        case FencedStart(info) =>
          inCodeBlock := true;
          currentLang := info;
          currentCode := "";
        case CodeBlockEnd =>
          if inCodeBlock && currentLang != "" {
            codeBlocks := codeBlocks + [Block(currentLang, currentCode)];
          }
          inCodeBlock := false;
        case Prose(text) =>
          if inCodeBlock {
            currentCode := currentCode + text;
          }
        case Code(text) =>
          if inCodeBlock {
            currentCode := currentCode + text;
          }
        case Other =>
      }
      assert codeBlocks == before + Emitted(st, events[i]);
      assert State(inCodeBlock, currentLang, currentCode) == Next(st, events[i]);
    }
    assert events[|events|..] == [];
  }

  /** Reading two event streams one after the other. */
  lemma {:induction false} ExtractAppend(st: State, xs: seq<Event>, ys: seq<Event>)
    ensures ExtractFrom(st, xs + ys) == ExtractFrom(st, xs) + ExtractFrom(After(st, xs), ys)
    ensures After(st, xs + ys) == After(After(st, xs), ys)
    decreases |xs|
  {
    if xs == [] {
      assert xs + ys == ys;
    } else {
      assert (xs + ys)[0] == xs[0];
      assert (xs + ys)[1..] == xs[1..] + ys;
      ExtractAppend(Next(st, xs[0]), xs[1..], ys);
    }
  }

  /** The code a block's body contributes: its text and inline code, in order. */
  function CodeText(body: seq<Event>): string {
    if body == [] then []
    else match body[0]
      case Prose(t) => t + CodeText(body[1..])
      case Code(t) => t + CodeText(body[1..])
      case _ => CodeText(body[1..])
  }

  /** Events outside a fenced block: no fenced start among them. */
  predicate Outside(events: seq<Event>) {
    forall i :: 0 <= i < |events| ==> !events[i].FencedStart?
  }

  /** Events inside a fenced block: neither a start nor an end among them. */
  predicate Inside(events: seq<Event>) {
    forall i :: 0 <= i < |events| ==> !events[i].FencedStart? && !events[i].CodeBlockEnd?
  }

  /** Events outside a fenced block contribute nothing and leave the
      extractor outside. */
  lemma {:induction false} OutsideIsSilent(st: State, events: seq<Event>)
    requires !st.inBlock && Outside(events)
    ensures ExtractFrom(st, events) == []
    ensures !After(st, events).inBlock
  {
    if events != [] {
      OutsideIsSilent(Next(st, events[0]), events[1..]);
    }
  }

  /** Inside a block, text and inline code accumulate and nothing is pushed. */
  lemma {:induction false} InsideAccumulates(st: State, body: seq<Event>)
    requires st.inBlock && Inside(body)
    ensures ExtractFrom(st, body) == []
    ensures After(st, body) == st.(code := st.code + CodeText(body))
    decreases |body|
  {
    if body == [] {
      assert st.code + [] == st.code;
    } else {
      var st' := Next(st, body[0]);
      InsideAccumulates(st', body[1..]);
      match body[0]
      case Prose(t) => assert st.code + t + CodeText(body[1..]) == st.code + (t + CodeText(body[1..]));
      case Code(t) => assert st.code + t + CodeText(body[1..]) == st.code + (t + CodeText(body[1..]));
      case Other =>
    }
  }

  /** A complete fenced block yields its info string and the text of its
      body, since the code is cleared at the start; a block with an empty
      info string yields nothing. */
  lemma FencedBlock(st: State, info: string, body: seq<Event>)
    requires Inside(body)
    ensures ExtractFrom(st, [FencedStart(info)] + body + [CodeBlockEnd])
            == if info == "" then [] else [Block(info, CodeText(body))]
    ensures !After(st, [FencedStart(info)] + body + [CodeBlockEnd]).inBlock
  {
    var open := State(true, info, "");
    InsideAccumulates(open, body);
    ExtractAppend(st, [FencedStart(info)], body);
    ExtractAppend(st, [FencedStart(info)] + body, [CodeBlockEnd]);
    assert "" + CodeText(body) == CodeText(body);
  }

  /** A region's events as the parser delivers them: stretches of ordinary
      markdown and complete fenced blocks. */
  datatype Piece = Prose(events: seq<Event>) | Fence(info: string, body: seq<Event>)

  predicate WellFormed(p: Piece) {
    match p
    case Prose(events) => Outside(events)
    case Fence(_, body) => Inside(body)
  }

  function Flatten(pieces: seq<Piece>): seq<Event> {
    if pieces == [] then []
    else
      (match pieces[0]
       case Prose(events) => events
       case Fence(info, body) => [FencedStart(info)] + body + [CodeBlockEnd])
      + Flatten(pieces[1..])
  }

  /** The reference answer: one block per fence with a non-empty info
      string, in source order, holding the text of the fence's body. */
  function FenceBlocks(pieces: seq<Piece>): seq<Block> {
    if pieces == [] then []
    else
      (match pieces[0]
       case Prose(_) => []
       case Fence(info, body) => if info == "" then [] else [Block(info, CodeText(body))])
      + FenceBlocks(pieces[1..])
  }

  lemma {:induction false} ExtractFromPieces(st: State, pieces: seq<Piece>)
    requires !st.inBlock
    requires forall i :: 0 <= i < |pieces| ==> WellFormed(pieces[i])
    ensures ExtractFrom(st, Flatten(pieces)) == FenceBlocks(pieces)
    ensures !After(st, Flatten(pieces)).inBlock
    decreases |pieces|
  {
    if pieces != [] {
      var head := match pieces[0]
        case Prose(events) => events
        case Fence(info, body) => [FencedStart(info)] + body + [CodeBlockEnd];
      assert WellFormed(pieces[0]);
      match pieces[0] {
        case Prose(events) => OutsideIsSilent(st, events);
        case Fence(info, body) => FencedBlock(st, info, body);
      }
      ExtractAppend(st, head, Flatten(pieces[1..]));
      ExtractFromPieces(After(st, head), pieces[1..]);
    }
  }

  /** `extract_code_blocks` returns exactly the fenced blocks with a
      non-empty info string, in source order, each holding the text and
      inline code of its body; prose contributes nothing. */
  lemma CodeBlocksOfPieces(pieces: seq<Piece>)
    requires forall i :: 0 <= i < |pieces| ==> WellFormed(pieces[i])
    ensures CodeBlocks(Flatten(pieces)) == FenceBlocks(pieces)
  {
    ExtractFromPieces(Initial, pieces);
  }

  /** A fence still open when the events run out pushes nothing: the
      extractor pushes only at a block's end event. */
  lemma UnterminatedFenceYieldsNothing(pieces: seq<Piece>, info: string, body: seq<Event>)
    requires forall i :: 0 <= i < |pieces| ==> WellFormed(pieces[i])
    requires Inside(body)
    ensures CodeBlocks(Flatten(pieces) + ([FencedStart(info)] + body)) == FenceBlocks(pieces)
  {
    ExtractFromPieces(Initial, pieces);
    var st := After(Initial, Flatten(pieces));
    ExtractAppend(Initial, Flatten(pieces), [FencedStart(info)] + body);
    ExtractAppend(st, [FencedStart(info)], body);
    InsideAccumulates(State(true, info, ""), body);
  }
}
