/**
 * The `truncate` function of jquery.truncate.js and its inner walk `getText`.
 *
 * The walk visits a forest of document nodes depth-first, pre-order, left to
 * right, appending the data of text and CDATA nodes to one accumulated string
 * and stopping as soon as that string is long enough and, in a delimiter mode,
 * a boundary follows `minLength`.
 *
 * The walk itself is the class `Walk`, whose fields are the closure variables
 * `text`, `searching` and `lastNode`. Its specification is a fold over the
 * flat pre-order sequence of events the tree produces (`Run` over `Events`).
 */
module Truncation {
  import opened Wrappers
  import opened Patterns

  /** A document node, by its `nodeType`: 3 text, 4 CDATA, 8 comment, anything else structural. */
  datatype Node =
    | Text(data: string)
    | CData(data: string)
    | Comment(data: string)
    | Structural(name: string, childNodes: seq<Node>)

  /** The options `truncate` reads. */
  datatype Settings = Settings(wordSafe: bool, sentenceSafe: bool, truncateWhitespace: bool)

  /** `{text: text, node: lastNode}`. */
  datatype Truncated = Truncated(text: string, node: Option<Node>)

  /** What the walk does at one node, in visiting order. */
  datatype Event = Enter(node: Node) | Chars(data: string)

  /** The closure state of `truncate`: `text`, `searching`, `lastNode`. */
  datatype WalkState = WalkState(text: string, searching: bool, lastNode: Option<Node>)

  const Start := WalkState([], true, None)

  /** True when a delimiter mode is on (`checkDelim`). */
  predicate CheckDelim(settings: Settings) {
    settings.sentenceSafe || settings.wordSafe
  }

  /** Pre-order events of one node: a text or CDATA node yields its data, a
      comment nothing, any other node is entered and then its children follow. */
  function NodeEvents(n: Node): seq<Event>
    decreases n, 1
  {
    match n
    case Text(data) => [Chars(data)]
    case CData(data) => [Chars(data)]
    case Comment(_) => []
    case Structural(_, childNodes) => [Enter(n)] + Events(childNodes)
  }

  /** Pre-order events of a forest, left to right. */
  function Events(elems: seq<Node>): seq<Event>
    decreases elems, 0
  {
    if elems == [] then [] else NodeEvents(elems[0]) + Events(elems[1..])
  }

  /** The text the events carry, concatenated. */
  function TextOf(evs: seq<Event>): string {
    if evs == [] then [] else (if evs[0].Chars? then evs[0].data else []) + TextOf(evs[1..])
  }

  /** The whole text of a forest: the data of its text and CDATA nodes in pre-order. */
  function TextContent(nodes: seq<Node>): string {
    TextOf(Events(nodes))
  }

  /** The raw text after the trimming and, if `collapse`, the collapsing the walk applies. */
  function Normalized(raw: string, collapse: bool): string {
    var t := TrimStart(raw);
    if collapse then Collapse(t) else t
  }

  /** Appending one chunk: trim it while the text is still empty, then collapse the whole text. */
  function Accumulate(text: string, data: string, collapse: bool): string {
    var joined := text + (if text == [] then TrimStart(data) else data);
    if collapse then Collapse(joined) else joined
  }

  /** The cut length once the active pattern matched at `index` of `text[minLength..]`. */
  function CutLength(minLength: nat, index: nat, settings: Settings): nat {
    minLength + index + (if settings.wordSafe then 0 else 1)
  }

  /** A text or CDATA node during the walk: append, then check length and boundary. */
  function AppendChars(st: WalkState, data: string, minLength: nat, settings: Settings): (r: WalkState)
    requires st.searching
    ensures r.lastNode == st.lastNode
    ensures !r.searching ==> minLength <= |r.text|
  {
    var text := Accumulate(st.text, data, settings.truncateWhitespace);
    if |text| < minLength then st.(text := text)
    else if !CheckDelim(settings) then st.(text := text, searching := false)
    else
      match FirstBoundary(text[minLength..], settings.sentenceSafe)
      case None => st.(text := text)
      case Some(i) => st.(text := text[..CutLength(minLength, i, settings)], searching := false)
  }

  /** One event of the walk. */
  function Step(e: Event, st: WalkState, minLength: nat, settings: Settings): WalkState
    requires st.searching
  {
    match e
    case Enter(n) => st.(lastNode := Some(n))
    case Chars(data) => AppendChars(st, data, minLength, settings)
  }

  /** The walk over a sequence of events: it stops as soon as `searching` drops. */
  function Run(evs: seq<Event>, st: WalkState, minLength: nat, settings: Settings): WalkState {
    if evs == [] || !st.searching then st
    else Run(evs[1..], Step(evs[0], st, minLength, settings), minLength, settings)
  }

  /** The result of the walk over a sequence of events, from the initial state. */
  function ResultOf(evs: seq<Event>, minLength: nat, settings: Settings): Truncated {
    var st := Run(evs, Start, minLength, settings);
    Truncated(st.text, st.lastNode)
  }

  /** What `truncate(nodes, minLength, settings)` returns. */
  function TruncateSpec(nodes: seq<Node>, minLength: nat, settings: Settings): Truncated {
    ResultOf(Events(nodes), minLength, settings)
  }

  /** Running the events of `a + b` is running `a`, then `b` from where `a` left off. */
  lemma {:induction false} RunAppend(a: seq<Event>, b: seq<Event>, st: WalkState, minLength: nat, settings: Settings)
    ensures Run(a + b, st, minLength, settings) == Run(b, Run(a, st, minLength, settings), minLength, settings)
  {
    if a == [] {
      assert a + b == b;
    } else if st.searching {
      assert (a + b)[0] == a[0] && (a + b)[1..] == a[1..] + b;
      RunAppend(a[1..], b, Step(a[0], st, minLength, settings), minLength, settings);
    } else {
      assert Run(b, st, minLength, settings) == st by {
        if b != [] {}
      }
    }
  }

  /** The state of one closure of `truncate`. */
  class Walk {
    const minLength: nat
    const settings: Settings
    var text: string
    var searching: bool
    var lastNode: Option<Node>

    function State(): WalkState
      reads this
    {
      WalkState(text, searching, lastNode)
    }

    constructor (minLength: nat, settings: Settings)
      ensures this.minLength == minLength && this.settings == settings
      ensures State() == Start
    {
      this.minLength := minLength;
      this.settings := settings;
      text := [];
      searching := true;
      lastNode := None;
    }

    /** `getText(elems)`: visit the forest while still searching. */
    method GetText(elems: seq<Node>)
      modifies this
      ensures State() == Run(Events(elems), old(State()), minLength, settings)
      decreases elems
    {
      var i := 0;
      while i < |elems| && searching
        invariant 0 <= i <= |elems|
        invariant Run(Events(elems[i..]), State(), minLength, settings)
               == Run(Events(elems), old(State()), minLength, settings)
      {
        var elem := elems[i];
        ghost var before := State();
        assert elems[i..] == [elem] + elems[i + 1..];
        RunAppend(NodeEvents(elem), Events(elems[i + 1..]), before, minLength, settings);
        if elem.Text? || elem.CData? {
          AppendText(elem.data);
          assert State() == Run(NodeEvents(elem), before, minLength, settings);
        } else if !elem.Comment? {
          lastNode := Some(elem);
          GetText(elem.childNodes);
          assert NodeEvents(elem) == [Enter(elem)] + Events(elem.childNodes);
        }
        i := i + 1;
      }
      assert i == |elems| ==> elems[i..] == [];
    }

    /** The body of the loop for a text or CDATA node: append its data, then check the
        length and, in a delimiter mode, look for a boundary after `minLength`. */
    method AppendText(data: string)
      requires searching
      modifies this
      ensures State() == AppendChars(old(State()), data, minLength, settings)
    {
      var joined := text + (if text == [] then TrimStart(data) else data);
      if settings.truncateWhitespace {
        joined := Collapse(joined);
      }
      text := joined;
      if |joined| >= minLength {
        if settings.sentenceSafe || settings.wordSafe {
          var result := FirstBoundary(joined[minLength..], settings.sentenceSafe);
          if result.Some? {
            text := joined[..minLength + result.value + (if settings.wordSafe then 0 else 1)];
            searching := false;
          }
        } else {
          searching := false;
        }
      }
    }
  }

  /** `truncate(nodes, minLength, settings)`. */
  method Truncate(nodes: seq<Node>, minLength: nat, settings: Settings) returns (r: Truncated)
    ensures r == TruncateSpec(nodes, minLength, settings)
  {
    var walk := new Walk(minLength, settings);
    walk.GetText(nodes);
    r := Truncated(walk.text, walk.lastNode);
  }
}
