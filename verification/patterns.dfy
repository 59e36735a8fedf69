/**
 * The character classes and the three regular expressions of jquery.truncate.js:
 * `punctations` and `wordDelim` (searched with `exec`), and the two `replace`
 * calls that trim and collapse whitespace.
 */
module Patterns {
  import opened Wrappers

  /** JavaScript's `\s`: the WhiteSpace and LineTerminator code points of ECMAScript 5. */
  predicate IsWs(c: char) {
    c == ' ' || c == '\t' || c == '\n' || c == '\U{B}' || c == '\U{C}' || c == '\r'
    || c == '\U{A0}' || c == '\U{1680}' || ('\U{2000}' <= c <= '\U{200A}')
    || c == '\U{2028}' || c == '\U{2029}' || c == '\U{202F}' || c == '\U{205F}'
    || c == '\U{3000}' || c == '\U{FEFF}'
  }

  /** The character class of `punctations`: . ! ? ¡ ‼ … ¿ ‽ */
  predicate IsSentencePunctuation(c: char) {
    c == '.' || c == '!' || c == '?' || c == '\U{A1}' || c == '\U{203C}'
    || c == '\U{2026}' || c == '\U{BF}' || c == '\U{203D}'
  }

  /** The ideographic full stop, a sentence end on its own. */
  const IdeographicFullStop: char := '\U{3002}'

  /** `punctations` matches at `i`: punctuation followed by whitespace, or an ideographic full stop. */
  predicate SentenceAt(s: string, i: nat)
    requires i < |s|
  {
    (IsSentencePunctuation(s[i]) && i + 1 < |s| && IsWs(s[i + 1])) || s[i] == IdeographicFullStop
  }

  /** The active pattern matches at `i`: `punctations` when `sentence`, otherwise `wordDelim`. */
  predicate BoundaryAt(s: string, i: nat, sentence: bool)
    requires i < |s|
  {
    if sentence then SentenceAt(s, i) else IsWs(s[i])
  }

  /** Leftmost match of the active pattern at or after `k`. */
  function FirstBoundaryFrom(s: string, sentence: bool, k: nat): (r: Option<nat>)
    requires k <= |s|
    ensures r.Some? ==> k <= r.value < |s| && BoundaryAt(s, r.value, sentence)
    ensures r.Some? ==> forall j :: k <= j < r.value ==> !BoundaryAt(s, j, sentence)
    ensures r.None? ==> forall j :: k <= j < |s| ==> !BoundaryAt(s, j, sentence)
    decreases |s| - k
  {
    if k == |s| then None
    else if BoundaryAt(s, k, sentence) then Some(k)
    else FirstBoundaryFrom(s, sentence, k + 1)
  }

  /** `regex.exec(s).index`: the index of the leftmost match, or None when `exec` returns null. */
  function FirstBoundary(s: string, sentence: bool): (r: Option<nat>)
    ensures r.Some? ==> r.value < |s| && BoundaryAt(s, r.value, sentence)
    ensures r.Some? ==> forall j :: 0 <= j < r.value ==> !BoundaryAt(s, j, sentence)
    ensures r.None? ==> forall j :: 0 <= j < |s| ==> !BoundaryAt(s, j, sentence)
  {
    FirstBoundaryFrom(s, sentence, 0)
  }

  /** `s.replace(/^\s+/g, '')`: drop the leading run of whitespace. */
  function TrimStart(s: string): (r: string)
    ensures |r| <= |s|
    ensures forall j :: 0 <= j < |s| - |r| ==> IsWs(s[j])
    ensures r == [] || !IsWs(r[0])
  {
    if s != [] && IsWs(s[0]) then TrimStart(s[1..]) else s
  }

  /** Trimming removes a prefix of `s` and nothing else. */
  lemma {:induction false} TrimStartIsSuffix(s: string)
    ensures TrimStart(s) == s[|s| - |TrimStart(s)|..]
  {
    if s != [] && IsWs(s[0]) {
      TrimStartIsSuffix(s[1..]);
      assert s[1..][|s[1..]| - |TrimStart(s[1..])|..] == s[|s| - |TrimStart(s)|..];
    }
  }

  /** No two consecutive whitespace characters. */
  predicate NoDoubleWs(s: string) {
    forall i :: 0 < i < |s| ==> !(IsWs(s[i - 1]) && IsWs(s[i]))
  }

  /** Every whitespace character is a plain space. */
  predicate WsIsSpace(s: string) {
    forall i :: 0 <= i < |s| && IsWs(s[i]) ==> s[i] == ' '
  }

  /** The characters of `s` that are not whitespace, in order. */
  function Words(s: string): string {
    if s == [] then [] else (if IsWs(s[0]) then [] else [s[0]]) + Words(s[1..])
  }

  /** `s.replace(/\s+/g, ' ')`: every maximal run of whitespace becomes one space. */
  function Collapse(s: string): (r: string)
    ensures |r| <= |s| && (r == [] <==> s == [])
    ensures s != [] ==> r[0] == if IsWs(s[0]) then ' ' else s[0]
    decreases |s|
  {
    if s == [] then []
    else if IsWs(s[0]) then [' '] + Collapse(TrimStart(s[1..]))
    else [s[0]] + Collapse(s[1..])
  }

  /** After collapsing, whitespace appears only as single spaces. */
  lemma {:induction false} CollapseShape(s: string)
    ensures NoDoubleWs(Collapse(s)) && WsIsSpace(Collapse(s))
    decreases |s|
  {
    if s == [] {
    } else if IsWs(s[0]) {
      var c := Collapse(TrimStart(s[1..]));
      CollapseShape(TrimStart(s[1..]));
      assert Collapse(s) == [' '] + c;
    } else {
      var c := Collapse(s[1..]);
      CollapseShape(s[1..]);
      assert Collapse(s) == [s[0]] + c;
    }
  }

  /** Dropping leading whitespace keeps the non-whitespace characters. */
  lemma {:induction false} TrimStartKeepsWords(s: string)
    ensures Words(TrimStart(s)) == Words(s)
  {
    if s != [] && IsWs(s[0]) {
      TrimStartKeepsWords(s[1..]);
    }
  }

  /** Collapsing whitespace keeps every non-whitespace character, in order. */
  lemma {:induction false} CollapseKeepsWords(s: string)
    ensures Words(Collapse(s)) == Words(s)
    decreases |s|
  {
    if s == [] {
    } else if IsWs(s[0]) {
      var t := TrimStart(s[1..]);
      CollapseKeepsWords(t);
      TrimStartKeepsWords(s[1..]);
      assert ([' '] + Collapse(t))[1..] == Collapse(t);
    } else {
      CollapseKeepsWords(s[1..]);
      assert ([s[0]] + Collapse(s[1..]))[1..] == Collapse(s[1..]);
    }
  }

  /** Trimming a concatenation: the trim stays inside `a` unless `a` is all whitespace. */
  lemma {:induction false} TrimStartAppend(a: string, b: string)
    ensures TrimStart(a) != [] ==> TrimStart(a + b) == TrimStart(a) + b
    ensures TrimStart(a) == [] ==> TrimStart(a + b) == TrimStart(b)
  {
    if a == [] {
      assert a + b == b;
    } else if IsWs(a[0]) {
      TrimStartAppend(a[1..], b);
      assert (a + b)[1..] == a[1..] + b;
    } else {
      assert (a + b)[0] == a[0];
    }
  }

  /** Collapsing is incremental: collapsing `x` first and then the whole again
      gives the same string as collapsing `x + y` once. */
  lemma {:induction false} CollapseAppend(x: string, y: string)
    ensures Collapse(Collapse(x) + y) == Collapse(x + y)
    decreases |x|, 1
  {
    if x == [] {
      assert Collapse(x) + y == y && x + y == y;
    } else if IsWs(x[0]) {
      CollapseAppendSpace(x, y);
    } else {
      CollapseCharHead(x, y);
      CollapseAppend(x[1..], y);
    }
  }

  /** Both sides of `CollapseAppend` unfolded once when `x` starts with a non-whitespace
      character: that character, then the collapsed rest. */
  lemma {:induction false} CollapseCharHead(x: string, y: string)
    requires x != [] && !IsWs(x[0])
    ensures Collapse(Collapse(x) + y) == [x[0]] + Collapse(Collapse(x[1..]) + y)
    ensures Collapse(x + y) == [x[0]] + Collapse(x[1..] + y)
  {
    var c := Collapse(x[1..]);
    assert Collapse(x) == [x[0]] + c;
    var z := [x[0]] + (c + y);
    assert Collapse(x) + y == z;
    assert z[0] == x[0] && z[1..] == c + y;
    assert (x + y)[0] == x[0] && (x + y)[1..] == x[1..] + y;
  }

  /** The case of `CollapseAppend` where `x` starts with whitespace. */
  lemma {:induction false} CollapseAppendSpace(x: string, y: string)
    requires x != [] && IsWs(x[0])
    ensures Collapse(Collapse(x) + y) == Collapse(x + y)
    decreases |x|, 0
  {
    var t := TrimStart(x[1..]);
    var c := Collapse(t);
    CollapseSpaceHead(x, y);
    TrimStartAppend(x[1..], y);
    if t == [] {
      assert c + y == y;
    } else {
      TrimStartAppend(c, y);
      CollapseAppend(t, y);
    }
  }

  /** Both sides of `CollapseAppendSpace` unfolded once: a single space, then the collapsed
      rest with its leading whitespace trimmed. */
  lemma {:induction false} CollapseSpaceHead(x: string, y: string)
    requires x != [] && IsWs(x[0])
    ensures Collapse(Collapse(x) + y) == [' '] + Collapse(TrimStart(Collapse(TrimStart(x[1..])) + y))
    ensures Collapse(x + y) == [' '] + Collapse(TrimStart(x[1..] + y))
  {
    CollapsedSpaceHead(x, y);
    assert (x + y)[0] == x[0] && (x + y)[1..] == x[1..] + y;
  }

  /** The first half of `CollapseSpaceHead`, kept in a lemma of its own so that each
      unfolding is a small proof obligation for the solver. */
  lemma {:induction false} CollapsedSpaceHead(x: string, y: string)
    requires x != [] && IsWs(x[0])
    ensures Collapse(Collapse(x) + y) == [' '] + Collapse(TrimStart(Collapse(TrimStart(x[1..])) + y))
  {
    var c := Collapse(TrimStart(x[1..]));
    assert Collapse(x) == [' '] + c;
    var z := [' '] + (c + y);
    assert Collapse(x) + y == z;
    assert z[0] == ' ' && z[1..] == c + y;
  }

  /** Collapsing twice changes nothing. */
  lemma {:induction false} CollapseIdempotent(x: string)
    ensures Collapse(Collapse(x)) == Collapse(x)
  {
    CollapseAppend(x, []);
    assert Collapse(x) + [] == Collapse(x) && x + [] == x;
  }

  /** Collapsing a longer string extends the collapsed shorter one. */
  lemma {:induction false} CollapsePrefix(x: string, y: string)
    ensures Collapse(x) <= Collapse(x + y)
    decreases |x|
  {
    if x == [] {
    } else if IsWs(x[0]) {
      var t := TrimStart(x[1..]);
      assert (x + y)[1..] == x[1..] + y;
      TrimStartAppend(x[1..], y);
      if t != [] {
        CollapsePrefix(t, y);
      }
    } else {
      assert (x + y)[1..] == x[1..] + y;
      CollapsePrefix(x[1..], y);
    }
  }

  /** A string whose only whitespace is single spaces is left as it is by `Collapse`. */
  lemma {:induction false} CollapseFixed(s: string)
    requires NoDoubleWs(s) && WsIsSpace(s)
    ensures Collapse(s) == s
  {
    if s != [] {
      assert NoDoubleWs(s[1..]) && WsIsSpace(s[1..]) by {
        forall i | 0 < i < |s[1..]| ensures !(IsWs(s[1..][i - 1]) && IsWs(s[1..][i])) {
          assert s[1..][i - 1] == s[i] && s[1..][i] == s[i + 1];
        }
      }
      CollapseFixed(s[1..]);
      if IsWs(s[0]) {
        assert s[1..] == [] || !IsWs(s[1]);
        assert TrimStart(s[1..]) == s[1..];
        assert s == [' '] + s[1..];
      } else {
        assert s == [s[0]] + s[1..];
      }
    }
  }

  /** A boundary found in the suffix `s[m..]` lies at the shifted index of `s`. */
  lemma {:induction false} BoundaryShift(s: string, m: nat, i: nat, sentence: bool)
    requires m + i < |s|
    ensures BoundaryAt(s[m..], i, sentence) == BoundaryAt(s, m + i, sentence)
  {
    assert s[m..][i] == s[m + i];
    if m + i + 1 < |s| {
      assert s[m..][i + 1] == s[m + i + 1];
    }
  }

  /** A boundary in a prefix is still a boundary once more text follows. */
  lemma {:induction false} BoundaryExtends(p: string, q: string, i: nat, sentence: bool)
    requires p <= q && i < |p|
    ensures BoundaryAt(p, i, sentence) ==> BoundaryAt(q, i, sentence)
  {
    assert p[i] == q[i];
    if i + 1 < |p| {
      assert p[i + 1] == q[i + 1];
    }
  }

  /** Once a prefix holds a match, appending text cannot move the leftmost match. */
  lemma {:induction false} FirstBoundaryExtends(p: string, q: string, sentence: bool)
    requires p <= q && FirstBoundary(p, sentence).Some?
    ensures FirstBoundary(q, sentence) == FirstBoundary(p, sentence)
  {
    var i := FirstBoundary(p, sentence).value;
    BoundaryExtends(p, q, i, sentence);
    forall j | 0 <= j < i ensures !BoundaryAt(q, j, sentence) {
      assert !BoundaryAt(p, j, sentence);
      assert p[j] == q[j] && p[j + 1] == q[j + 1];
    }
  }
}
