/** The conversation history: the (message, image) pairs of earlier
    exchanges, newest last, and the slice-and-append that bounds it
    (src/App.tsx, HISTORY_LENGTH and the update in requestInsultFromVideo). */
module History {

  datatype HistoryItem = HistoryItem(message: string, imgBase64: string)

  const HistoryLength: int := 2

  function Min(a: int, b: int): int
  {
    if a <= b then a else b
  }

  /** The last `n` elements of `s` (all of them when there are fewer): the
      reference definition of a FIFO window of size `n`. */
  function Newest<T>(s: seq<T>, n: nat): seq<T>
  {
    s[|s| - Min(|s|, n)..]
  }

  lemma NewestIndex<T>(s: seq<T>, n: nat, k: nat)
    requires k < Min(|s|, n)
    ensures Newest(s, n)[k] == s[|s| - Min(|s|, n) + k]
  {
  }

  /** Where `Array.prototype.slice(start)` begins on an array of length `len`:
      a negative start counts from the end, and both kinds are clamped. */
  function SliceStart(len: nat, start: int): (k: nat)
    ensures k <= len
  {
    if start < 0 then (if len + start < 0 then 0 else len + start)
    else if start > len then len
    else start
  }

  /** `s.slice(start)` with one argument. */
  function JsSlice<T>(s: seq<T>, start: int): (r: seq<T>)
    ensures |r| <= |s| && r == s[|s| - |r|..]
    ensures start < 0 ==> |r| == Min(-start, |s|)
    ensures start >= 0 ==> |r| == if start > |s| then 0 else |s| - start
  {
    s[SliceStart(|s|, start)..]
  }

  /** `history.slice(-HISTORY_LENGTH)`: the items the prompt replays. */
  function Recent(history: seq<HistoryItem>): (r: seq<HistoryItem>)
    ensures r == Newest(history, HistoryLength)
  {
    JsSlice(history, -HistoryLength)
  }

  /** `[...history.slice(-HISTORY_LENGTH + 1), newItem]`, written for the
      constant 2: the newest old item (if any) followed by the new one. */
  function AppendBounded(history: seq<HistoryItem>, item: HistoryItem): (r: seq<HistoryItem>)
    ensures |r| == Min(|history|, 1) + 1 <= HistoryLength
    ensures r[|r| - 1] == item
    ensures |history| > 0 ==> r[0] == history[|history| - 1]
  {
    JsSlice(history, -HistoryLength + 1) + [item]
  }

  /** The update is FIFO eviction: the result is the newest HistoryLength
      items of `history + [item]`, so at most one old item survives. */
  lemma AppendIsNewestWindow(history: seq<HistoryItem>, item: HistoryItem)
    ensures AppendBounded(history, item) == Newest(history + [item], HistoryLength)
  {
    var s := history + [item];
    var r := AppendBounded(history, item);
    assert |r| == |Newest(s, HistoryLength)|;
    if |history| > 0 {
      assert r == [history[|history| - 1], item];
    } else {
      assert r == [item];
    }
  }

  /** Successive successful requests, oldest first. */
  function AppendAll(history: seq<HistoryItem>, items: seq<HistoryItem>): seq<HistoryItem>
    decreases |items|
  {
    if items == [] then history
    else AppendAll(AppendBounded(history, items[0]), items[1..])
  }

  lemma NewestOfNewest<T>(s: seq<T>, rest: seq<T>, n: nat)
    ensures Newest(Newest(s, n) + rest, n) == Newest(s + rest, n)
  {
    var a := Newest(s, n) + rest;
    var b := s + rest;
    var m := Min(|b|, n);
    assert Min(|a|, n) == m;
    assert forall k :: 0 <= k < m ==> Newest(a, n)[k] == Newest(b, n)[k];
  }

  /** However many items are appended, the history is the newest
      HistoryLength of everything it has seen, in original order. */
  lemma {:induction false} AppendAllKeepsNewest(history: seq<HistoryItem>, items: seq<HistoryItem>)
    requires |history| <= HistoryLength
    ensures AppendAll(history, items) == Newest(history + items, HistoryLength)
    decreases |items|
  {
    if items == [] {
      assert history + items == history;
    } else {
      var s := history + [items[0]];
      var next := AppendBounded(history, items[0]);
      AppendIsNewestWindow(history, items[0]);
      AppendAllKeepsNewest(next, items[1..]);
      NewestOfNewest(s, items[1..], HistoryLength);
      HeadThenTail(history, items);
      calc {
        AppendAll(history, items);
        AppendAll(next, items[1..]);
        Newest(Newest(s, HistoryLength) + items[1..], HistoryLength);
        Newest(history + items, HistoryLength);
      }
    }
  }

  lemma HeadThenTail<T>(s: seq<T>, xs: seq<T>)
    requires xs != []
    ensures s + [xs[0]] + xs[1..] == s + xs
  {
    assert [xs[0]] + xs[1..] == xs;
  }

  /** Every history reached from a bounded one stays bounded. */
  lemma {:induction false} AppendAllBounded(history: seq<HistoryItem>, items: seq<HistoryItem>)
    requires |history| <= HistoryLength
    ensures |AppendAll(history, items)| <= HistoryLength
  {
    AppendAllKeepsNewest(history, items);
  }
}
