/**
 * What `truncate` promises, proved about its specification `TruncateSpec`
 * (and so, through `Truncation.Truncate`'s postcondition, about the walk).
 */
module TruncationProofs {
  import opened Wrappers
  import opened Patterns
  import opened Truncation

  // ---------------------------------------------------------------------------
  // Text normalisation

  /** Incremental normalisation: appending a chunk to the normalised text read so
      far gives the normalisation of all the raw text read so far. */
  lemma {:induction false} AppendNormalizes(raw: string, data: string, collapse: bool)
    ensures Accumulate(Normalized(raw, collapse), data, collapse) == Normalized(raw + data, collapse)
  {
    var t := TrimStart(raw);
    TrimStartAppend(raw, data);
    if t == [] {
      assert Normalized(raw, collapse) == [];
      assert [] + TrimStart(data) == TrimStart(data);
    } else if collapse {
      CollapseAppend(t, data);
    }
  }

  /** Reading more raw text only extends the normalised text. */
  lemma {:induction false} NormalizedPrefix(raw: string, more: string, collapse: bool)
    ensures Normalized(raw, collapse) <= Normalized(raw + more, collapse)
  {
    TrimStartAppend(raw, more);
    if collapse {
      if TrimStart(raw) == [] {
      } else {
        CollapsePrefix(TrimStart(raw), more);
      }
    }
  }

  /** Normalised text never starts with whitespace and, collapsed, holds only single spaces. */
  lemma {:induction false} NormalizedShape(raw: string, collapse: bool)
    ensures var n := Normalized(raw, collapse); n == [] || !IsWs(n[0])
    ensures collapse ==> NoDoubleWs(Normalized(raw, collapse)) && WsIsSpace(Normalized(raw, collapse))
  {
    if collapse {
      CollapseShape(TrimStart(raw));
    }
  }

  /** A prefix keeps the shape of the string it is cut from. */
  lemma {:induction false} PrefixShape(p: string, q: string)
    requires p <= q
    ensures q == [] || !IsWs(q[0]) ==> p == [] || !IsWs(p[0])
    ensures NoDoubleWs(q) ==> NoDoubleWs(p)
    ensures WsIsSpace(q) ==> WsIsSpace(p)
  {
    assert forall i :: 0 <= i < |p| ==> p[i] == q[i];
  }

  // ---------------------------------------------------------------------------
  // Events

  lemma {:induction false} TextOfAppend(a: seq<Event>, b: seq<Event>)
    ensures TextOf(a + b) == TextOf(a) + TextOf(b)
  {
    if a != [] {
      assert (a + b)[0] == a[0] && (a + b)[1..] == a[1..] + b;
      TextOfAppend(a[1..], b);
    } else {
      assert a + b == b;
    }
  }

  lemma {:induction false} EventsAppend(a: seq<Node>, b: seq<Node>)
    ensures Events(a + b) == Events(a) + Events(b)
  {
    if a != [] {
      assert (a + b)[0] == a[0] && (a + b)[1..] == a[1..] + b;
      EventsAppend(a[1..], b);
    } else {
      assert a + b == b;
    }
  }

  /** The state after the prefix `evs[..j + 1]`, from the state after `evs[..j]`. */
  lemma {:induction false} RunSnoc(evs: seq<Event>, j: nat, st: WalkState, minLength: nat, settings: Settings)
    requires j < |evs| && Run(evs[..j], st, minLength, settings).searching
    ensures Run(evs[..j + 1], st, minLength, settings)
         == Step(evs[j], Run(evs[..j], st, minLength, settings), minLength, settings)
  {
    assert evs[..j + 1] == evs[..j] + [evs[j]];
    RunAppend(evs[..j], [evs[j]], st, minLength, settings);
  }

  // ---------------------------------------------------------------------------
  // Invariants of the walk

  /** The accumulated text is a prefix of the normalised raw text read so far, and
      equal to it while the walk is still searching. */
  ghost predicate Tracks(st: WalkState, raw: string, collapse: bool) {
    st.text <= Normalized(raw, collapse) && (st.searching ==> st.text == Normalized(raw, collapse))
  }

  /** One step keeps the text tracking the raw text, extended by the event's data. */
  lemma {:induction false} StepTracks(e: Event, st: WalkState, raw: string, minLength: nat, settings: Settings)
    requires st.searching && Tracks(st, raw, settings.truncateWhitespace)
    ensures Tracks(Step(e, st, minLength, settings), raw + TextOf([e]), settings.truncateWhitespace)
  {
    assert TextOf([e]) == (if e.Chars? then e.data else []) + TextOf([]);
    if e.Chars? {
      assert TextOf([e]) == e.data;
      AppendNormalizes(raw, e.data, settings.truncateWhitespace);
    } else {
      assert raw + TextOf([e]) == raw;
    }
  }

  lemma {:induction false} RunTracks(evs: seq<Event>, st: WalkState, raw: string, minLength: nat, settings: Settings)
    requires Tracks(st, raw, settings.truncateWhitespace)
    ensures Tracks(Run(evs, st, minLength, settings), raw + TextOf(evs), settings.truncateWhitespace)
  {
    if evs == [] {
      assert raw + TextOf(evs) == raw;
    } else if !st.searching {
      NormalizedPrefix(raw, TextOf(evs), settings.truncateWhitespace);
    } else {
      StepTracks(evs[0], st, raw, minLength, settings);
      var next := Step(evs[0], st, minLength, settings);
      RunTracks(evs[1..], next, raw + TextOf([evs[0]]), minLength, settings);
      TextOfAppend([evs[0]], evs[1..]);
      assert evs == [evs[0]] + evs[1..];
      assert raw + TextOf(evs) == (raw + TextOf([evs[0]])) + TextOf(evs[1..]);
    }
  }

  /** Once the walk has stopped, its text is at least `minLength` long. */
  lemma {:induction false} RunStopLength(evs: seq<Event>, st: WalkState, minLength: nat, settings: Settings)
    requires !st.searching ==> minLength <= |st.text|
    ensures var r := Run(evs, st, minLength, settings); !r.searching ==> minLength <= |r.text|
  {
    if evs != [] && st.searching {
      RunStopLength(evs[1..], Step(evs[0], st, minLength, settings), minLength, settings);
    }
  }

  // ---------------------------------------------------------------------------
  // The delimiter modes: a closed form of the whole walk

  /** Reference definition: cut the whole normalised text at the first boundary at or
      after `minLength`, keeping the delimiter only when not word-safe. */
  function CutAtBoundary(full: string, minLength: nat, settings: Settings): (r: string)
    requires CheckDelim(settings)
    ensures r <= full
  {
    if |full| < minLength then full
    else
      match FirstBoundary(full[minLength..], settings.sentenceSafe)
      case None => full
      case Some(i) => full[..CutLength(minLength, i, settings)]
  }

  /** What the reference cut means: no boundary at or after `minLength` leaves the text
      whole; otherwise the text ends at the first such boundary `b`, with the
      delimiter dropped when word-safe and kept when not. */
  lemma {:induction false} CutAtBoundaryMeaning(full: string, minLength: nat, settings: Settings)
    requires CheckDelim(settings)
    ensures (forall j :: minLength <= j < |full| ==> !BoundaryAt(full, j, settings.sentenceSafe))
            ==> CutAtBoundary(full, minLength, settings) == full
    ensures forall b :: minLength <= b < |full| && BoundaryAt(full, b, settings.sentenceSafe)
                        && (forall j :: minLength <= j < b ==> !BoundaryAt(full, j, settings.sentenceSafe))
                        ==> CutAtBoundary(full, minLength, settings) == full[..b + (if settings.wordSafe then 0 else 1)]
  {
    var sentence := settings.sentenceSafe;
    if |full| >= minLength {
      match FirstBoundary(full[minLength..], sentence)
      case None =>
        forall j | minLength <= j < |full| ensures !BoundaryAt(full, j, sentence) {
          BoundaryShift(full, minLength, j - minLength, sentence);
        }
      case Some(i) =>
        BoundaryShift(full, minLength, i, sentence);
        forall b | minLength <= b < |full| && BoundaryAt(full, b, sentence)
                   && (forall j :: minLength <= j < b ==> !BoundaryAt(full, j, sentence))
          ensures b == minLength + i
        {
          BoundaryShift(full, minLength, b - minLength, sentence);
        }
    }
  }

  /** No boundary has been found yet in the text accumulated so far. */
  predicate NoCutYet(text: string, minLength: nat, sentence: bool) {
    |text| < minLength || FirstBoundary(text[minLength..], sentence).None?
  }

  /** The step that finds the first boundary cuts exactly where the reference cuts the
      whole text, however much text follows. */
  lemma {:induction false} StepCut(raw: string, more: string, minLength: nat, settings: Settings)
    requires CheckDelim(settings)
    requires var t := Normalized(raw, settings.truncateWhitespace);
             minLength <= |t| && FirstBoundary(t[minLength..], settings.sentenceSafe).Some?
    ensures var t := Normalized(raw, settings.truncateWhitespace);
            var i := FirstBoundary(t[minLength..], settings.sentenceSafe).value;
            t[..CutLength(minLength, i, settings)]
            == CutAtBoundary(Normalized(raw + more, settings.truncateWhitespace), minLength, settings)
  {
    var tw, sentence := settings.truncateWhitespace, settings.sentenceSafe;
    var t := Normalized(raw, tw);
    var full := Normalized(raw + more, tw);
    NormalizedPrefix(raw, more, tw);
    assert t[minLength..] <= full[minLength..];
    FirstBoundaryExtends(t[minLength..], full[minLength..], sentence);
  }

  lemma {:induction false} RunCut(evs: seq<Event>, st: WalkState, raw: string, minLength: nat, settings: Settings)
    requires CheckDelim(settings)
    requires st.searching && st.text == Normalized(raw, settings.truncateWhitespace)
    requires NoCutYet(st.text, minLength, settings.sentenceSafe)
    ensures Run(evs, st, minLength, settings).text
         == CutAtBoundary(Normalized(raw + TextOf(evs), settings.truncateWhitespace), minLength, settings)
  {
    var tw := settings.truncateWhitespace;
    if evs == [] {
      assert raw + TextOf(evs) == raw;
    } else {
      var e := evs[0];
      var rest := evs[1..];
      var next := Step(e, st, minLength, settings);
      assert Run(evs, st, minLength, settings) == Run(rest, next, minLength, settings);
      if e.Enter? {
        assert TextOf(evs) == TextOf(rest);
        RunCut(rest, next, raw, minLength, settings);
      } else {
        var raw' := raw + e.data;
        assert raw + TextOf(evs) == raw' + TextOf(rest);
        AppendNormalizes(raw, e.data, tw);
        if next.searching {
          RunCut(rest, next, raw', minLength, settings);
        } else {
          StepCut(raw', TextOf(rest), minLength, settings);
          assert Run(rest, next, minLength, settings) == next by {
            if rest != [] {}
          }
        }
      }
    }
  }

  /** In a delimiter mode, `truncate` returns the whole normalised text cut at its first
      boundary at or after `minLength`: searching node by node, across node
      boundaries, finds the same cut as searching the finished text once. */
  lemma {:induction false} TruncateAtBoundary(nodes: seq<Node>, minLength: nat, settings: Settings)
    requires CheckDelim(settings)
    ensures TruncateSpec(nodes, minLength, settings).text
         == CutAtBoundary(Normalized(TextContent(nodes), settings.truncateWhitespace), minLength, settings)
  {
    assert Start.text == Normalized([], settings.truncateWhitespace);
    assert [] + TextContent(nodes) == TextContent(nodes);
    RunCut(Events(nodes), Start, [], minLength, settings);
  }

  // ---------------------------------------------------------------------------
  // Facts about the result, in every mode

  lemma {:induction false} TruncateTracks(nodes: seq<Node>, minLength: nat, settings: Settings)
    ensures var st := Run(Events(nodes), Start, minLength, settings);
            Tracks(st, TextContent(nodes), settings.truncateWhitespace)
  {
    assert Tracks(Start, [], settings.truncateWhitespace);
    RunTracks(Events(nodes), Start, [], minLength, settings);
    assert [] + TextContent(nodes) == TextContent(nodes);
  }

  /** The returned text is a prefix of the normalised text of all text and CDATA nodes. */
  lemma {:induction false} TruncateIsPrefix(nodes: seq<Node>, minLength: nat, settings: Settings)
    ensures TruncateSpec(nodes, minLength, settings).text <= Normalized(TextContent(nodes), settings.truncateWhitespace)
  {
    TruncateTracks(nodes, minLength, settings);
  }

  /** Either the text reached `minLength`, or nothing was cut and the whole normalised text is returned. */
  lemma {:induction false} TruncateLength(nodes: seq<Node>, minLength: nat, settings: Settings)
    ensures var r := TruncateSpec(nodes, minLength, settings);
            minLength <= |r.text| || r.text == Normalized(TextContent(nodes), settings.truncateWhitespace)
  {
    TruncateTracks(nodes, minLength, settings);
    RunStopLength(Events(nodes), Start, minLength, settings);
  }

  /** Text that never reaches `minLength`, or holds no boundary after it, is returned whole. */
  lemma {:induction false} TruncateFailsOpen(nodes: seq<Node>, minLength: nat, settings: Settings)
    requires var full := Normalized(TextContent(nodes), settings.truncateWhitespace);
             |full| < minLength
             || (CheckDelim(settings)
                 && forall j :: minLength <= j < |full| ==> !BoundaryAt(full, j, settings.sentenceSafe))
    ensures TruncateSpec(nodes, minLength, settings).text == Normalized(TextContent(nodes), settings.truncateWhitespace)
  {
    var full := Normalized(TextContent(nodes), settings.truncateWhitespace);
    if |full| < minLength {
      TruncateLength(nodes, minLength, settings);
      TruncateIsPrefix(nodes, minLength, settings);
    } else {
      TruncateAtBoundary(nodes, minLength, settings);
      CutAtBoundaryMeaning(full, minLength, settings);
    }
  }

  /** The accumulated text after any number of steps, and so the result, never starts with
      whitespace and, with `truncateWhitespace`, holds no two consecutive whitespace
      characters and no whitespace other than a plain space. */
  lemma {:induction false} WalkShape(nodes: seq<Node>, k: nat, minLength: nat, settings: Settings)
    requires k <= |Events(nodes)|
    ensures var t := Run(Events(nodes)[..k], Start, minLength, settings).text;
            (t == [] || !IsWs(t[0]))
            && (settings.truncateWhitespace ==> NoDoubleWs(t) && WsIsSpace(t))
  {
    var tw := settings.truncateWhitespace;
    var evs := Events(nodes)[..k];
    assert Tracks(Start, [], tw);
    RunTracks(evs, Start, [], minLength, settings);
    assert [] + TextOf(evs) == TextOf(evs);
    NormalizedShape(TextOf(evs), tw);
    PrefixShape(Run(evs, Start, minLength, settings).text, Normalized(TextOf(evs), tw));
  }

  lemma {:induction false} TruncateShape(nodes: seq<Node>, minLength: nat, settings: Settings)
    ensures var t := TruncateSpec(nodes, minLength, settings).text;
            (t == [] || !IsWs(t[0]))
            && (settings.truncateWhitespace ==> NoDoubleWs(t) && WsIsSpace(t))
  {
    var evs := Events(nodes);
    assert evs[..|evs|] == evs;
    WalkShape(nodes, |evs|, minLength, settings);
  }

  /** Comment nodes contribute nothing: dropping one changes nothing in the result. */
  lemma {:induction false} CommentsIgnored(before: seq<Node>, data: string, after: seq<Node>, minLength: nat, settings: Settings)
    ensures TruncateSpec(before + [Comment(data)] + after, minLength, settings)
         == TruncateSpec(before + after, minLength, settings)
  {
    EventsAppend(before + [Comment(data)], after);
    EventsAppend(before, [Comment(data)]);
    EventsAppend(before, after);
    assert Events([Comment(data)]) == NodeEvents(Comment(data)) + Events([]) == [];
    assert Events(before + [Comment(data)]) == Events(before);
  }

  /** Truncating an already truncated text again, as one text node and with a `minLength`
      no smaller than its length, returns it unchanged. */
  lemma {:induction false} TruncateIdempotent(nodes: seq<Node>, minLength: nat, settings: Settings, again: nat)
    requires again >= |TruncateSpec(nodes, minLength, settings).text|
    ensures var t := TruncateSpec(nodes, minLength, settings).text;
            TruncateSpec([Text(t)], again, settings) == Truncated(t, None)
  {
    var t := TruncateSpec(nodes, minLength, settings).text;
    var tw := settings.truncateWhitespace;
    TruncateShape(nodes, minLength, settings);
    assert TrimStart(t) == t;
    if tw {
      CollapseFixed(t);
    }
    assert [] + TrimStart(t) == t;
    assert Accumulate([], t, tw) == t;
    assert Events([Text(t)]) == NodeEvents(Text(t)) + Events([]) == [Chars(t)];
    if |t| == again {
      assert t[again..] == [];
    }
    var next := AppendChars(Start, t, again, settings);
    assert next.text == t && next.lastNode == None;
    assert Run([Chars(t)], Start, again, settings) == Run([], next, again, settings);
  }

  // ---------------------------------------------------------------------------
  // Where the walk stops, and the node it reports

  /** How many events the walk handles before `searching` drops (all of them if it never does). */
  function Consumed(evs: seq<Event>, st: WalkState, minLength: nat, settings: Settings): (c: nat)
    ensures c <= |evs|
  {
    if evs == [] || !st.searching then 0
    else 1 + Consumed(evs[1..], Step(evs[0], st, minLength, settings), minLength, settings)
  }

  /** The node of the last `Enter` event, or `init` when there is none. */
  function LastEnter(evs: seq<Event>, init: Option<Node>): Option<Node> {
    if evs == [] then init
    else if evs[|evs| - 1].Enter? then Some(evs[|evs| - 1].node)
    else LastEnter(evs[..|evs| - 1], init)
  }

  lemma {:induction false} LastEnterCons(e: Event, rest: seq<Event>, init: Option<Node>)
    ensures LastEnter([e] + rest, init) == LastEnter(rest, if e.Enter? then Some(e.node) else init)
    decreases |rest|
  {
    if rest == [] {
      assert [e] + rest == [e] && [e][..0] == [];
    } else {
      var l := |rest| - 1;
      assert ([e] + rest)[..|rest|] == [e] + rest[..l];
      assert ([e] + rest)[|rest|] == rest[l];
      if !rest[l].Enter? {
        LastEnterCons(e, rest[..l], init);
      }
    }
  }

  /** With no initial node, `LastEnter` reports a node exactly when one was entered, and
      the node it reports was entered. */
  lemma {:induction false} LastEnterFound(evs: seq<Event>)
    ensures LastEnter(evs, None).Some? <==> exists k :: 0 <= k < |evs| && evs[k].Enter?
    ensures LastEnter(evs, None).Some? ==> Enter(LastEnter(evs, None).value) in evs
  {
    if evs != [] {
      var l := |evs| - 1;
      LastEnterFound(evs[..l]);
      if !evs[l].Enter? {
        assert forall k :: 0 <= k < l ==> evs[..l][k] == evs[k];
      }
    }
  }

  lemma {:induction false} RunConsumed(evs: seq<Event>, st: WalkState, minLength: nat, settings: Settings)
    ensures var c := Consumed(evs, st, minLength, settings);
            var r := Run(evs, st, minLength, settings);
            Run(evs[..c], st, minLength, settings) == r
            && (forall j :: 0 <= j < c ==> Run(evs[..j], st, minLength, settings).searching)
            && (c < |evs| ==> !r.searching)
            && (st.searching && !r.searching ==> 0 < c && evs[c - 1].Chars?)
            && r.lastNode == LastEnter(evs[..c], st.lastNode)
  {
    var c := Consumed(evs, st, minLength, settings);
    if evs == [] || !st.searching {
      assert evs[..c] == [];
    } else {
      var next := Step(evs[0], st, minLength, settings);
      var rest := evs[1..];
      RunConsumed(rest, next, minLength, settings);
      var c' := c - 1;
      assert evs[..c] == [evs[0]] + rest[..c'];
      assert evs[..c][1..] == rest[..c'];
      forall j | 0 <= j < c ensures Run(evs[..j], st, minLength, settings).searching {
        if j > 0 {
          assert evs[..j][1..] == rest[..j - 1];
        }
      }
      LastEnterCons(evs[0], rest[..c'], st.lastNode);
    }
  }

  /** The tracking invariant after any prefix of the events. */
  lemma {:induction false} PrefixTracks(evs: seq<Event>, k: nat, minLength: nat, settings: Settings)
    requires k <= |evs|
    ensures Tracks(Run(evs[..k], Start, minLength, settings), TextOf(evs[..k]), settings.truncateWhitespace)
  {
    assert Tracks(Start, [], settings.truncateWhitespace);
    RunTracks(evs[..k], Start, [], minLength, settings);
    assert [] + TextOf(evs[..k]) == TextOf(evs[..k]);
  }

  /** The walk visits the first `c` pre-order events and no more: every shorter prefix left
      it searching, it stopped early only on a text node, and the reported node is the last
      node entered among those `c` events, or none if none was entered. */
  lemma {:induction false} TruncateStopsAt(nodes: seq<Node>, minLength: nat, settings: Settings)
    ensures var evs := Events(nodes);
            var c := Consumed(evs, Start, minLength, settings);
            var r := TruncateSpec(nodes, minLength, settings);
            r == ResultOf(evs[..c], minLength, settings)
            && (forall j :: 0 <= j < c ==> Run(evs[..j], Start, minLength, settings).searching)
            && (c < |evs| ==> 0 < c && evs[c - 1].Chars? && minLength <= |r.text|)
            && r.node == LastEnter(evs[..c], None)
            && (r.node.Some? <==> exists k :: 0 <= k < c && evs[k].Enter?)
            && (r.node.Some? ==> Enter(r.node.value) in evs[..c])
  {
    var evs := Events(nodes);
    var c := Consumed(evs, Start, minLength, settings);
    RunConsumed(evs, Start, minLength, settings);
    RunStopLength(evs, Start, minLength, settings);
    LastEnterFound(evs[..c]);
    assert forall k :: 0 <= k < c ==> evs[..c][k] == evs[k];
  }

  /** Without a delimiter mode, a text event that stops the walk keeps all the text seen so far. */
  lemma {:induction false} UncutStop(evs: seq<Event>, c: nat, minLength: nat, settings: Settings)
    requires !CheckDelim(settings)
    requires 0 < c <= |evs| && evs[c - 1].Chars? && Run(evs[..c - 1], Start, minLength, settings).searching
    ensures Run(evs[..c], Start, minLength, settings).text == Normalized(TextOf(evs[..c]), settings.truncateWhitespace)
  {
    var tw := settings.truncateWhitespace;
    RunSnoc(evs, c - 1, Start, minLength, settings);
    PrefixTracks(evs, c - 1, minLength, settings);
    AppendNormalizes(TextOf(evs[..c - 1]), evs[c - 1].data, tw);
    assert evs[..c] == evs[..c - 1] + [evs[c - 1]];
    TextOfAppend(evs[..c - 1], [evs[c - 1]]);
    assert TextOf([evs[c - 1]]) == evs[c - 1].data;
  }

  /** Without a delimiter mode, a text event after which the walk still searches leaves
      less than `minLength` characters of normalised text. */
  lemma {:induction false} ShortWhileSearching(evs: seq<Event>, j: nat, minLength: nat, settings: Settings)
    requires !CheckDelim(settings)
    requires j < |evs| && evs[j].Chars?
    requires Run(evs[..j], Start, minLength, settings).searching
    requires Run(evs[..j + 1], Start, minLength, settings).searching
    ensures |Normalized(TextOf(evs[..j + 1]), settings.truncateWhitespace)| < minLength
  {
    RunSnoc(evs, j, Start, minLength, settings);
    PrefixTracks(evs, j + 1, minLength, settings);
  }

  /** Without a delimiter mode the text is never shortened: the walk stops at the first text
      node after which the normalised text reaches `minLength`, and returns all of it. */
  lemma {:induction false} TruncateWithoutDelimiter(nodes: seq<Node>, minLength: nat, settings: Settings)
    requires !CheckDelim(settings)
    ensures var evs := Events(nodes);
            var c := Consumed(evs, Start, minLength, settings);
            var tw := settings.truncateWhitespace;
            TruncateSpec(nodes, minLength, settings).text == Normalized(TextOf(evs[..c]), tw)
            && (forall j :: 0 <= j && j + 1 < c && evs[j].Chars? ==> |Normalized(TextOf(evs[..j + 1]), tw)| < minLength)
            && (c < |evs| ==> minLength <= |TruncateSpec(nodes, minLength, settings).text|)
  {
    var evs := Events(nodes);
    var c := Consumed(evs, Start, minLength, settings);
    RunConsumed(evs, Start, minLength, settings);
    RunStopLength(evs, Start, minLength, settings);
    PrefixTracks(evs, c, minLength, settings);
    if !Run(evs[..c], Start, minLength, settings).searching {
      UncutStop(evs, c, minLength, settings);
    }
    forall j | 0 <= j && j + 1 < c && evs[j].Chars?
      ensures |Normalized(TextOf(evs[..j + 1]), settings.truncateWhitespace)| < minLength
    {
      ShortWhileSearching(evs, j, minLength, settings);
    }
  }

  /** A structural root is always entered first, so the reported node is never undefined. */
  lemma {:induction false} RootEntered(root: Node, minLength: nat, settings: Settings)
    requires root.Structural?
    ensures TruncateSpec([root], minLength, settings).node.Some?
  {
    var evs := Events([root]);
    assert [root][1..] == [];
    assert evs == NodeEvents(root) + Events([]);
    assert evs[0] == Enter(root);
    TruncateStopsAt([root], minLength, settings);
    assert Consumed(evs, Start, minLength, settings) > 0;
  }
}
