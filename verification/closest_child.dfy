/**
 * `fn.closestChild(selector, context)` of jquery.truncate.js: for each selected
 * node, walk up its parent chain and report the node one step below the first
 * node that matches the selector (the node itself when it matches), stopping
 * without a result at the top of the chain, at a node outside a document, at the
 * `context` node or at a document fragment.
 *
 * The selector is resolved to the set of nodes it matches; a node's parent chain
 * is given explicitly, ending where `parentNode` is null.
 */
module ClosestChild {
  import opened Wrappers

  /** A node as the walk sees it: its identity, `nodeType` and whether it has an `ownerDocument`. */
  datatype DomRef = DomRef(id: nat, nodeType: nat, hasOwnerDocument: bool)

  /** A selected node and its ancestors: `ancestors[0]` is its `parentNode`, and so on up
      to the topmost node, whose `parentNode` is null. */
  datatype Lineage = Lineage(self: DomRef, ancestors: seq<DomRef>)

  const DocumentFragmentNode: nat := 11

  /** The node and its ancestors, nearest first. */
  function Chain(l: Lineage): (c: seq<DomRef>)
    ensures |c| == |l.ancestors| + 1 && c[0] == l.self
  {
    [l.self] + l.ancestors
  }

  /** An ancestor at which the upward walk gives up. */
  predicate Halts(cur: DomRef, context: Option<DomRef>) {
    !cur.hasOwnerDocument || context == Some(cur) || cur.nodeType == DocumentFragmentNode
  }

  /** The walk reaches `chain[m]`: no node above the start and up to `chain[m]` halts it. */
  ghost predicate Reaches(chain: seq<DomRef>, m: nat, context: Option<DomRef>)
    requires m < |chain|
  {
    forall h :: 0 < h <= m ==> !Halts(chain[h], context)
  }

  /** The first node the walk reaches that matches, looking from `chain[k]` upwards. */
  function MatchFrom(chain: seq<DomRef>, k: nat, selected: set<DomRef>, context: Option<DomRef>): (r: Option<nat>)
    requires k < |chain|
    ensures r.Some? ==> k <= r.value < |chain| && chain[r.value] in selected
    ensures r.Some? ==> forall j :: k <= j < r.value ==> chain[j] !in selected
    ensures r.Some? ==> forall h :: k < h <= r.value ==> !Halts(chain[h], context)
    ensures r.None? ==> forall j :: k <= j < |chain| && chain[j] in selected
                          ==> exists h :: k < h <= j && Halts(chain[h], context)
    decreases |chain| - k
  {
    if chain[k] in selected then Some(k)
    else if k + 1 == |chain| || Halts(chain[k + 1], context) then None
    else MatchFrom(chain, k + 1, selected, context)
  }

  /** What `closestChild` yields for one selected node. */
  function ClosestFor(l: Lineage, selected: set<DomRef>, context: Option<DomRef>): (r: Option<DomRef>)
    ensures r.Some? ==> r.value in Chain(l)
  {
    var chain := Chain(l);
    match MatchFrom(chain, 0, selected, context)
    case None => None
    case Some(m) => Some(if m == 0 then chain[0] else chain[m - 1])
  }

  /** The per-input results in input order, before duplicates are removed. */
  function Found(inputs: seq<Lineage>, selected: set<DomRef>, context: Option<DomRef>): seq<DomRef> {
    if inputs == [] then []
    else
      var last := inputs[|inputs| - 1];
      Found(inputs[..|inputs| - 1], selected, context)
        + (match ClosestFor(last, selected, context) case None => [] case Some(x) => [x])
  }

  predicate NoDuplicates(s: seq<DomRef>) {
    forall i, j :: 0 <= i < j < |s| ==> s[i] != s[j]
  }

  /** `$.unique`: the same elements, each once, in order of first occurrence. */
  function Unique(s: seq<DomRef>): (r: seq<DomRef>)
    ensures forall x :: x in r <==> x in s
    ensures NoDuplicates(r) && |r| <= |s|
  {
    if s == [] then []
    else
      var u := Unique(s[..|s| - 1]);
      var x := s[|s| - 1];
      assert forall y :: y in s <==> y in s[..|s| - 1] || y == x by {
        assert s == s[..|s| - 1] + [x];
      }
      if x in u then u else u + [x]
  }

  /** `fn.closestChild`. */
  method ClosestChild(inputs: seq<Lineage>, selected: set<DomRef>, context: Option<DomRef>) returns (ret: seq<DomRef>)
    ensures forall x :: x in ret <==> exists i :: 0 <= i < |inputs| && ClosestFor(inputs[i], selected, context) == Some(x)
    ensures NoDuplicates(ret) && |ret| <= |inputs|
  {
    ret := [];
    for i := 0 to |inputs|
      invariant ret == Found(inputs[..i], selected, context)
    {
      FoundSnoc(inputs, i, selected, context);
      var chain := Chain(inputs[i]);
      var elem, k := chain[0], 0;
      while true
        invariant 0 <= k < |chain|
        invariant elem == chain[if k == 0 then 0 else k - 1]
        invariant MatchFrom(chain, k, selected, context) == MatchFrom(chain, 0, selected, context)
        invariant ret == Found(inputs[..i], selected, context)
        decreases |chain| - k
      {
        var cur := chain[k];
        if cur in selected {
          ret := ret + [elem];
          break;
        }
        elem := cur;
        if k + 1 == |chain| || Halts(chain[k + 1], context) {
          break;
        }
        k := k + 1;
      }
    }
    assert inputs[..|inputs|] == inputs;
    FoundMembers(inputs, selected, context);
    ret := if |ret| > 1 then Unique(ret) else ret;
  }

  /** One more input appends its result, if any. */
  lemma {:induction false} FoundSnoc(inputs: seq<Lineage>, i: nat, selected: set<DomRef>, context: Option<DomRef>)
    requires i < |inputs|
    ensures Found(inputs[..i + 1], selected, context)
         == Found(inputs[..i], selected, context)
            + (match ClosestFor(inputs[i], selected, context) case None => [] case Some(x) => [x])
  {
    assert inputs[..i + 1][..i] == inputs[..i];
  }

  /** `Found` holds exactly the per-input results, at most one per input. */
  lemma {:induction false} FoundMembers(inputs: seq<Lineage>, selected: set<DomRef>, context: Option<DomRef>)
    ensures forall x :: x in Found(inputs, selected, context)
                     <==> exists i :: 0 <= i < |inputs| && ClosestFor(inputs[i], selected, context) == Some(x)
    ensures |Found(inputs, selected, context)| <= |inputs|
  {
    if inputs != [] {
      var n := |inputs| - 1;
      FoundMembers(inputs[..n], selected, context);
      assert forall i :: 0 <= i < n ==> inputs[..n][i] == inputs[i];
    }
  }

  /** `chain[m]` is the first node of the chain that matches, and the walk reaches it. */
  ghost predicate FirstReachedMatch(chain: seq<DomRef>, m: nat, selected: set<DomRef>, context: Option<DomRef>) {
    m < |chain| && chain[m] in selected && Reaches(chain, m, context)
    && forall j :: 0 <= j < m ==> chain[j] !in selected
  }

  /** What `closestChild` yields for one node, stated without the walk: nothing exactly when
      every matching node of the chain lies beyond a node that halts the walk; otherwise
      the node itself if it matches, else the node just below the first matching ancestor. */
  lemma {:induction false} ClosestForMeaning(l: Lineage, selected: set<DomRef>, context: Option<DomRef>)
    ensures var chain := Chain(l);
            ClosestFor(l, selected, context).None?
            <==> forall m :: 0 <= m < |chain| && chain[m] in selected ==> !Reaches(chain, m, context)
    ensures var chain := Chain(l);
            forall m :: FirstReachedMatch(chain, m, selected, context)
                        ==> ClosestFor(l, selected, context) == Some(if m == 0 then l.self else chain[m - 1])
  {
    var chain := Chain(l);
    match MatchFrom(chain, 0, selected, context)
    case None =>
      forall m | 0 <= m < |chain| && chain[m] in selected ensures !Reaches(chain, m, context) {
        var h :| 0 < h <= m && Halts(chain[h], context);
      }
    case Some(r) =>
      assert FirstReachedMatch(chain, r, selected, context);
      forall m: nat | FirstReachedMatch(chain, m, selected, context) ensures m == r {
      }
  }

  /** A node whose grandparent matches, with nothing halting the walk, yields its parent. */
  lemma {:induction false} GrandparentMatch(child: DomRef, parent: DomRef, grandparent: DomRef)
    requires child != grandparent && parent != grandparent
    requires parent.hasOwnerDocument && parent.nodeType == 1
    requires grandparent.hasOwnerDocument && grandparent.nodeType == 1
    ensures ClosestFor(Lineage(child, [parent, grandparent]), {grandparent}, None) == Some(parent)
  {
    var chain := Chain(Lineage(child, [parent, grandparent]));
    assert chain == [child, parent, grandparent];
    assert MatchFrom(chain, 2, {grandparent}, None) == Some(2);
    assert MatchFrom(chain, 1, {grandparent}, None) == Some(2);
  }
}
