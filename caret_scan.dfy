/**
 * The caret scan of `caretPositionChanged`: which character near the caret
 * decides the script. First the character before the caret, then the one at
 * the caret, then a fallback loop `i = 1..5` that looks at `offset - i` and
 * then `offset + i`; the first character that is not whitespace wins.
 *
 * `VisitOrder` lists the indices the code reads, in the order it reads them
 * (the fallback re-reads `offset - 1` in its first round, as the code does),
 * `Detect` is the first non-whitespace character in that order, and
 * `ScanNearCaret` is the code's own loop, proved to compute `Detect` while
 * reading only inside the window `[offset - 5, offset + 5]` of the document.
 */
module CaretScan {
  import opened Wrappers
  import opened CharClass

  /** How far the fallback loop `for (i in 1..5)` reaches on each side of the caret. */
  const Radius: nat := 5

  /** Index `j` is a character of the document no further than `Radius` from the caret. */
  predicate InWindow(offset: int, len: int, j: int) {
    0 <= j < len && offset - Radius <= j <= offset + Radius
  }

  /** The index `offset - i`, read first in round `i` of the fallback loop, when it lies in the document. */
  function Behind(offset: int, i: int): seq<int> {
    if offset - i >= 0 then [offset - i] else []
  }

  /** The index `offset + i`, read second in round `i` of the fallback loop, when it lies in the document. */
  function Ahead(offset: int, len: int, i: int): seq<int> {
    if offset + i < len then [offset + i] else []
  }

  /** The indices the two adjacency checks read: before the caret (`offset > 0`), then at it (`offset < len`). */
  function Adjacent(offset: int, len: int): seq<int> {
    Behind(offset, 1) + Ahead(offset, len, 0)
  }

  /** The indices round `i` of the fallback loop reads: `offset - i`, then `offset + i`. */
  function Ring(offset: int, len: int, i: int): seq<int> {
    Behind(offset, i) + Ahead(offset, len, i)
  }

  /** The indices rounds `1..n` of the fallback loop read, in order; all lie in the document, within `n` of the caret. */
  function Rings(offset: int, len: int, n: nat): (order: seq<int>)
    requires 0 <= offset <= len
    ensures forall k :: 0 <= k < |order| ==> 0 <= order[k] < len && offset - n <= order[k] <= offset + n
  {
    if n == 0 then [] else Rings(offset, len, n - 1) + Ring(offset, len, n)
  }

  /** Every index the listener may read, in reading order; each one lies in the window. */
  function VisitOrder(offset: int, len: int): (order: seq<int>)
    requires 0 <= offset <= len
    ensures forall k :: 0 <= k < |order| ==> InWindow(offset, len, order[k])
  {
    Adjacent(offset, len) + Rings(offset, len, Radius)
  }

  /** Position in `order` of the first index holding a non-whitespace character, or `|order|` if there is none. */
  function FirstHit(doc: seq<Char16>, order: seq<int>): (k: nat)
    requires forall m :: 0 <= m < |order| ==> 0 <= order[m] < |doc|
    ensures k <= |order|
    ensures forall m :: 0 <= m < k ==> IsWhitespace(doc[order[m]])
    ensures k < |order| ==> !IsWhitespace(doc[order[k]])
    decreases |order|
  {
    if order == [] then 0
    else if !IsWhitespace(doc[order[0]]) then 0
    else 1 + FirstHit(doc, order[1..])
  }

  /** The character the caret listener settles on, if any: the first non-whitespace one in reading order. */
  function Detect(doc: seq<Char16>, offset: int): (r: Option<Char16>)
    requires 0 <= offset <= |doc|
    ensures r.Some? ==> !IsWhitespace(r.value)
  {
    var order := VisitOrder(offset, |doc|);
    var k := FirstHit(doc, order);
    if k < |order| then Some(doc[order[k]]) else None
  }

  /** Rounds `1..i` are read before rounds `i+1..n`. */
  lemma {:induction false} RingsPrefix(offset: int, len: int, i: nat, n: nat)
    requires 0 <= offset <= len && i <= n
    ensures Rings(offset, len, i) <= Rings(offset, len, n)
    decreases n - i
  {
    if i < n {
      RingsPrefix(offset, len, i, n - 1);
    }
  }

  /** Every document index within `n` of the caret, other than the caret's own, is read by rounds `1..n`. */
  lemma {:induction false} RingsCover(offset: int, len: int, n: nat, j: int)
    requires 0 <= offset <= len
    requires 0 <= j < len && j != offset && offset - n <= j <= offset + n
    ensures j in Rings(offset, len, n)
  {
    if j == offset - n || j == offset + n {
      assert j in Ring(offset, len, n);
    } else {
      RingsCover(offset, len, n - 1, j);
    }
  }

  /** The listener reads exactly the document indices in the window `[offset - 5, offset + 5]`. */
  lemma VisitOrderIsWindow(offset: int, len: int, j: int)
    requires 0 <= offset <= len
    ensures j in VisitOrder(offset, len) <==> InWindow(offset, len, j)
  {
    if InWindow(offset, len, j) {
      if j == offset {
        assert j in Adjacent(offset, len);
      } else {
        RingsCover(offset, len, Radius, j);
      }
    }
  }

  /** A first hit is the detected character: every earlier index in reading order holds whitespace. */
  lemma DetectFirstHit(doc: seq<Char16>, offset: int, k: nat)
    requires 0 <= offset <= |doc|
    requires k < |VisitOrder(offset, |doc|)|
    requires !IsWhitespace(doc[VisitOrder(offset, |doc|)[k]])
    requires forall m :: 0 <= m < k ==> IsWhitespace(doc[VisitOrder(offset, |doc|)[m]])
    ensures Detect(doc, offset) == Some(doc[VisitOrder(offset, |doc|)[k]])
  {
  }

  /** Adjacency before: a non-whitespace character just before the caret is detected, whatever else the document holds. */
  lemma DetectBeforeCaret(doc: seq<Char16>, offset: int)
    requires 0 < offset <= |doc|
    requires !IsWhitespace(doc[offset - 1])
    ensures Detect(doc, offset) == Some(doc[offset - 1])
  {
    DetectFirstHit(doc, offset, 0);
  }

  /** Adjacency after: otherwise a non-whitespace character at the caret is detected. */
  lemma DetectAtCaret(doc: seq<Char16>, offset: int)
    requires 0 <= offset < |doc|
    requires offset == 0 || IsWhitespace(doc[offset - 1])
    requires !IsWhitespace(doc[offset])
    ensures Detect(doc, offset) == Some(doc[offset])
  {
    var order := VisitOrder(offset, |doc|);
    if offset == 0 {
      assert order[0] == offset;
      DetectFirstHit(doc, offset, 0);
    } else {
      assert order[0] == offset - 1 && order[1] == offset;
      DetectFirstHit(doc, offset, 1);
    }
  }

  /** Nothing is detected exactly when every document character in the window is whitespace. */
  lemma DetectNoneIffBlankWindow(doc: seq<Char16>, offset: int)
    requires 0 <= offset <= |doc|
    ensures Detect(doc, offset).None? <==> forall j :: InWindow(offset, |doc|, j) ==> IsWhitespace(doc[j])
  {
    var order := VisitOrder(offset, |doc|);
    var k := FirstHit(doc, order);
    if k < |order| {
      assert InWindow(offset, |doc|, order[k]);
    } else {
      forall j | InWindow(offset, |doc|, j)
        ensures IsWhitespace(doc[j])
      {
        VisitOrderIsWindow(offset, |doc|, j);
        var m :| 0 <= m < |order| && order[m] == j;
      }
    }
  }

  /**
   * Two document lengths reach equally far into the window: every index
   * `offset .. offset + 5` lies in both documents or in neither (the indices
   * below the caret lie in any document the caret is in).
   */
  predicate SameReach(offset: int, len: int, other: int) {
    len == other || (len > offset + Radius && other > offset + Radius)
  }

  /** The fallback rounds read the same indices in two documents that reach equally far. */
  lemma {:induction false} RingsSameReach(offset: int, len: int, other: int, n: nat)
    requires 0 <= offset <= len && offset <= other
    requires n <= Radius && SameReach(offset, len, other)
    ensures Rings(offset, len, n) == Rings(offset, other, n)
  {
    if n > 0 {
      RingsSameReach(offset, len, other, n - 1);
    }
  }

  /** The first hit depends only on the characters at the positions the order visits. */
  lemma {:induction false} FirstHitAgree(doc: seq<Char16>, other: seq<Char16>, order: seq<int>)
    requires forall m :: 0 <= m < |order| ==> 0 <= order[m] < |doc| && 0 <= order[m] < |other|
    requires forall m :: 0 <= m < |order| ==> doc[order[m]] == other[order[m]]
    ensures FirstHit(doc, order) == FirstHit(other, order)
    decreases |order|
  {
    if order != [] && IsWhitespace(doc[order[0]]) {
      FirstHitAgree(doc, other, order[1..]);
    }
  }

  /**
   * Only the window matters: two documents that reach equally far past the
   * caret and agree on the characters within 5 of it lead to the same
   * detection, however long they are and however they differ further away.
   */
  lemma DetectIsLocal(doc: seq<Char16>, other: seq<Char16>, offset: int)
    requires 0 <= offset <= |doc| && offset <= |other|
    requires SameReach(offset, |doc|, |other|)
    requires forall j :: InWindow(offset, |doc|, j) ==> doc[j] == other[j]
    ensures Detect(doc, offset) == Detect(other, offset)
  {
    RingsSameReach(offset, |doc|, |other|, Radius);
    var order := VisitOrder(offset, |doc|);
    assert order == VisitOrder(offset, |other|);
    FirstHitAgree(doc, other, order);
  }

  /** Every index in `seen` lies in the document and holds whitespace. */
  ghost predicate Blank(doc: seq<Char16>, seen: seq<int>) {
    forall m :: 0 <= m < |seen| ==> 0 <= seen[m] < |doc| && IsWhitespace(doc[seen[m]])
  }

  /** Reading one more whitespace character keeps a scan blank. */
  lemma BlankExtend(doc: seq<Char16>, seen: seq<int>, j: int)
    requires Blank(doc, seen) && 0 <= j < |doc| && IsWhitespace(doc[j])
    ensures Blank(doc, seen + [j])
  {
  }

  /** The adjacency checks read their indices first in reading order, the character before the caret first of all. */
  lemma AdjacentInOrder(offset: int, len: int)
    requires 0 <= offset <= len
    ensures Behind(offset, 1) <= VisitOrder(offset, len)
    ensures Adjacent(offset, len) <= VisitOrder(offset, len)
  {
  }

  /** Round `i` of the fallback loop follows the adjacency checks and rounds `1..i-1` in reading order. */
  lemma RoundInOrder(offset: int, len: int, i: nat)
    requires 0 <= offset <= len && 1 <= i <= Radius
    ensures Adjacent(offset, len) + Rings(offset, len, i - 1) + Behind(offset, i) <= VisitOrder(offset, len)
    ensures Adjacent(offset, len) + Rings(offset, len, i - 1) + Behind(offset, i) + Ahead(offset, len, i)
            == Adjacent(offset, len) + Rings(offset, len, i)
    ensures Adjacent(offset, len) + Rings(offset, len, i) <= VisitOrder(offset, len)
  {
    RingsPrefix(offset, len, i, Radius);
    var a, p, r, t := Adjacent(offset, len), Rings(offset, len, i - 1), Rings(offset, len, i), Rings(offset, len, Radius);
    assert a + p + Behind(offset, i) + Ahead(offset, len, i) == a + r;
    assert (a + t)[..|a + r|] == a + r;
    assert (a + r)[..|a + p + Behind(offset, i)|] == a + p + Behind(offset, i);
  }

  /**
   * The scan's outcome: its probes lie in the window, in reading order, all
   * but the last find whitespace, and the detected character is the one at
   * the last probe, or nothing after the whole order was read.
   */
  ghost predicate ScanOutcome(doc: seq<Char16>, offset: int, detected: Option<Char16>, probes: seq<int>)
    requires 0 <= offset <= |doc|
  {
    && (forall m :: 0 <= m < |probes| ==> InWindow(offset, |doc|, probes[m]))
    && probes <= VisitOrder(offset, |doc|)
    && (forall m :: 0 <= m < |probes| - 1 ==> IsWhitespace(doc[probes[m]]))
    && (detected.Some? ==> 0 < |probes| && detected.value == doc[probes[|probes| - 1]]
                           && !IsWhitespace(detected.value))
    && (detected.None? ==> probes == VisitOrder(offset, |doc|)
                           && forall m :: 0 <= m < |probes| ==> IsWhitespace(doc[probes[m]]))
    && detected == Detect(doc, offset)
  }

  /** A scan that reads whitespace at `seen`, in reading order, and then a non-whitespace character at `j` ends with it. */
  lemma ScanHit(doc: seq<Char16>, offset: int, seen: seq<int>, j: int)
    requires 0 <= offset <= |doc|
    requires Blank(doc, seen) && seen + [j] <= VisitOrder(offset, |doc|)
    requires 0 <= j < |doc| && !IsWhitespace(doc[j])
    ensures ScanOutcome(doc, offset, Some(doc[j]), seen + [j])
  {
    var order, probes := VisitOrder(offset, |doc|), seen + [j];
    assert forall m :: 0 <= m < |probes| ==> probes[m] == order[m];
    DetectFirstHit(doc, offset, |seen|);
  }

  /** A scan that reads the whole order and finds only whitespace detects nothing. */
  lemma ScanMiss(doc: seq<Char16>, offset: int, seen: seq<int>)
    requires 0 <= offset <= |doc|
    requires Blank(doc, seen) && seen == VisitOrder(offset, |doc|)
    ensures ScanOutcome(doc, offset, None, seen)
  {
  }

  /** At the start of round `i` of the fallback loop: all earlier probes found whitespace. */
  ghost predicate RoundStart(doc: seq<Char16>, offset: int, i: int, probes: seq<int>)
    requires 0 <= offset <= |doc|
  {
    1 <= i <= Radius + 1 && probes == Adjacent(offset, |doc|) + Rings(offset, |doc|, i - 1) && Blank(doc, probes)
  }

  /** In round `i`, after `offset - i` was read (or skipped) and found whitespace. */
  ghost predicate RoundMiddle(doc: seq<Char16>, offset: int, i: int, probes: seq<int>)
    requires 0 <= offset <= |doc|
  {
    1 <= i <= Radius && probes == Adjacent(offset, |doc|) + Rings(offset, |doc|, i - 1) + Behind(offset, i)
    && Blank(doc, probes)
  }

  /** Round `i` past its first half: `offset - i` is skipped outside the document, or read and found whitespace. */
  lemma BehindMissed(doc: seq<Char16>, offset: int, i: int, probes: seq<int>)
    requires 0 <= offset <= |doc| && RoundStart(doc, offset, i, probes) && i <= Radius
    requires offset - i >= 0 ==> IsWhitespace(doc[offset - i])
    ensures RoundMiddle(doc, offset, i, probes + Behind(offset, i))
  {
    if offset - i >= 0 {
      BlankExtend(doc, probes, offset - i);
    } else {
      assert probes + Behind(offset, i) == probes;
    }
  }

  /** Round `i` past its second half: `offset + i` is skipped outside the document, or read and found whitespace. */
  lemma AheadMissed(doc: seq<Char16>, offset: int, i: int, probes: seq<int>)
    requires 0 <= offset <= |doc| && RoundMiddle(doc, offset, i, probes)
    requires offset + i < |doc| ==> IsWhitespace(doc[offset + i])
    ensures RoundStart(doc, offset, i + 1, probes + Ahead(offset, |doc|, i))
  {
    RoundInOrder(offset, |doc|, i);
    if offset + i < |doc| {
      BlankExtend(doc, probes, offset + i);
    } else {
      assert probes + Ahead(offset, |doc|, i) == probes;
    }
  }

  /** A non-whitespace character at `offset - i` ends the scan with it. */
  lemma BehindHit(doc: seq<Char16>, offset: int, i: int, probes: seq<int>)
    requires 0 <= offset <= |doc| && RoundStart(doc, offset, i, probes) && i <= Radius
    requires offset - i >= 0 && !IsWhitespace(doc[offset - i])
    ensures ScanOutcome(doc, offset, Some(doc[offset - i]), probes + [offset - i])
  {
    RoundInOrder(offset, |doc|, i);
    ScanHit(doc, offset, probes, offset - i);
  }

  /** A non-whitespace character at `offset + i` ends the scan with it. */
  lemma AheadHit(doc: seq<Char16>, offset: int, i: int, probes: seq<int>)
    requires 0 <= offset <= |doc| && RoundMiddle(doc, offset, i, probes)
    requires offset + i < |doc| && !IsWhitespace(doc[offset + i])
    ensures ScanOutcome(doc, offset, Some(doc[offset + i]), probes + [offset + i])
  {
    RoundInOrder(offset, |doc|, i);
    ScanHit(doc, offset, probes, offset + i);
  }

  /** After all five rounds found only whitespace, nothing is detected. */
  lemma RoundsExhausted(doc: seq<Char16>, offset: int, probes: seq<int>)
    requires 0 <= offset <= |doc| && RoundStart(doc, offset, Radius + 1, probes)
    ensures ScanOutcome(doc, offset, None, probes)
  {
    ScanMiss(doc, offset, probes);
  }

  /**
   * Step 3 of the scan, the fallback loop `for (i in 1..5)`, run after the
   * adjacency checks read `adjacent` and found only whitespace: round `i`
   * reads `offset - i`, then `offset + i`, and the first non-whitespace
   * character ends the loop.
   */
  method ScanFallback(doc: seq<Char16>, offset: int, adjacent: seq<int>) returns (detected: Option<Char16>, probes: seq<int>)
    requires 0 <= offset <= |doc|
    requires adjacent == Adjacent(offset, |doc|) && Blank(doc, adjacent)
    ensures ScanOutcome(doc, offset, detected, probes)
  {
    detected := None;
    probes := adjacent;
    assert RoundStart(doc, offset, 1, probes);
    for i := 1 to Radius + 1
      invariant detected.None?
      invariant RoundStart(doc, offset, i, probes)
    {
      var prev := offset - i;
      if prev >= 0 {
        var c := doc[prev];
        if !IsWhitespace(c) {
          BehindHit(doc, offset, i, probes);
          probes := probes + [prev];
          detected := Some(c);
          break;
        }
      }
      BehindMissed(doc, offset, i, probes);
      probes := probes + Behind(offset, i);
      var next := offset + i;
      if next < |doc| {
        var c := doc[next];
        if !IsWhitespace(c) {
          AheadHit(doc, offset, i, probes);
          probes := probes + [next];
          detected := Some(c);
          break;
        }
      }
      AheadMissed(doc, offset, i, probes);
      probes := probes + Ahead(offset, |doc|, i);
    }
    if detected.None? {
      RoundsExhausted(doc, offset, probes);
    }
  }

  /** A non-whitespace character just before the caret ends the scan with it. */
  lemma BeforeHit(doc: seq<Char16>, offset: int)
    requires 0 < offset <= |doc| && !IsWhitespace(doc[offset - 1])
    ensures ScanOutcome(doc, offset, Some(doc[offset - 1]), [offset - 1])
  {
    AdjacentInOrder(offset, |doc|);
    ScanHit(doc, offset, [], offset - 1);
  }

  /** A non-whitespace character at the caret, after whitespace or the start of the document before it, ends the scan with it. */
  lemma AtHit(doc: seq<Char16>, offset: int)
    requires 0 <= offset < |doc| && Blank(doc, Behind(offset, 1)) && !IsWhitespace(doc[offset])
    ensures ScanOutcome(doc, offset, Some(doc[offset]), Behind(offset, 1) + [offset])
  {
    AdjacentInOrder(offset, |doc|);
    ScanHit(doc, offset, Behind(offset, 1), offset);
  }

  /** When neither adjacency check finds a character, both read whitespace (or nothing) and the fallback loop starts. */
  lemma AdjacentMissed(doc: seq<Char16>, offset: int, probes: seq<int>)
    requires 0 <= offset <= |doc|
    requires offset > 0 ==> IsWhitespace(doc[offset - 1])
    requires offset < |doc| ==> IsWhitespace(doc[offset])
    requires probes == Behind(offset, 1) + Ahead(offset, |doc|, 0)
    ensures probes == Adjacent(offset, |doc|) && Blank(doc, probes)
  {
  }

  /**
   * The scan as the listener runs it. `probes` lists the indices it reads, in
   * order (one `getText` call each): all lie in the window, so none can throw,
   * they are a prefix of `VisitOrder`, every probe but the last finds
   * whitespace, and the detected character is the one at the last probe.
   */
  method ScanNearCaret(doc: seq<Char16>, offset: int) returns (detected: Option<Char16>, probes: seq<int>)
    requires 0 <= offset <= |doc|
    ensures forall m :: 0 <= m < |probes| ==> InWindow(offset, |doc|, probes[m])
    ensures probes <= VisitOrder(offset, |doc|)
    ensures forall m :: 0 <= m < |probes| - 1 ==> IsWhitespace(doc[probes[m]])
    ensures detected.Some? ==> 0 < |probes| && detected.value == doc[probes[|probes| - 1]]
                               && !IsWhitespace(detected.value)
    ensures detected.None? ==> probes == VisitOrder(offset, |doc|)
                               && forall m :: 0 <= m < |probes| ==> IsWhitespace(doc[probes[m]])
    ensures detected == Detect(doc, offset)
  {
    detected := None;
    probes := [];

    // the character before the caret
    if offset > 0 {
      var charBefore := doc[offset - 1];
      if !IsWhitespace(charBefore) {
        BeforeHit(doc, offset);
        detected := Some(charBefore);
      }
      probes := probes + [offset - 1];
    }

    // then the character at the caret
    if detected.None? && offset < |doc| {
      var charAfter := doc[offset];
      if !IsWhitespace(charAfter) {
        AtHit(doc, offset);
        detected := Some(charAfter);
      }
      probes := probes + [offset];
    }

    // then up to five characters on each side
    if detected.None? {
      AdjacentMissed(doc, offset, probes);
      detected, probes := ScanFallback(doc, offset, probes);
    }
    assert ScanOutcome(doc, offset, detected, probes);
  }
}
