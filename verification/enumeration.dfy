/** The window-enumeration filter behind the selector list: of the top-level
    windows the operating system reports, in the order it reports them, keep
    those that are visible and have a non-empty title. */
module Enumeration {

  /** An OS window handle (HWND) as Python sees it: a plain integer. */
  type Handle = int

  /** One window as the enumeration callback observes it: its handle, whether
      the OS calls it visible, and the text the OS returns for its title. */
  datatype ReportedWindow = ReportedWindow(hwnd: Handle, visible: bool, title: string)

  /** One `(title, handle)` pair of the returned list. */
  datatype WindowEntry = WindowEntry(title: string, hwnd: Handle)

  /** The callback's test: visible, and a title that is not the empty string. */
  predicate Listed(w: ReportedWindow) {
    w.visible && |w.title| > 0
  }

  function EntryOf(w: ReportedWindow): WindowEntry {
    WindowEntry(w.title, w.hwnd)
  }

  /** The list of `(title, handle)` pairs built by the enumeration callback,
      one append per listed window, in enumeration order. */
  function ListedWindows(reported: seq<ReportedWindow>): (r: seq<WindowEntry>)
    ensures |r| <= |reported|
    ensures forall e :: e in r ==> exists w :: w in reported && Listed(w) && EntryOf(w) == e
    ensures forall w :: w in reported && Listed(w) ==> EntryOf(w) in r
    ensures forall e :: e in r ==> |e.title| > 0
  {
    if |reported| == 0 then []
    else
      var prefix := reported[..|reported| - 1];
      var last := reported[|reported| - 1];
      assert forall w :: w in reported ==> w in prefix || w == last;
      ListedWindows(prefix) + (if Listed(last) then [EntryOf(last)] else [])
  }

  /** `idx` picks, in strictly increasing order, exactly the positions of
      `reported` holding listed windows, and `r` is the entries at those
      positions, one for one. */
  ghost predicate OrderedSelection(r: seq<WindowEntry>, reported: seq<ReportedWindow>, idx: seq<int>) {
    && |idx| == |r|
    && (forall k :: 0 <= k < |idx| ==> 0 <= idx[k] < |reported| && r[k] == EntryOf(reported[idx[k]]))
    && StrictlyIncreasing(idx)
    && (forall i :: 0 <= i < |reported| ==> (Listed(reported[i]) <==> i in idx))
  }

  ghost predicate StrictlyIncreasing(idx: seq<int>) {
    forall k, l :: 0 <= k < l < |idx| ==> idx[k] < idx[l]
  }

  /** The positions of the listed windows, in increasing order. */
  function ListedPositions(reported: seq<ReportedWindow>): (idx: seq<int>)
    ensures forall k :: 0 <= k < |idx| ==> 0 <= idx[k] < |reported|
  {
    if |reported| == 0 then []
    else
      ListedPositions(reported[..|reported| - 1])
      + (if Listed(reported[|reported| - 1]) then [|reported| - 1] else [])
  }

  lemma {:induction false} ListedPositionsMatchEntries(reported: seq<ReportedWindow>)
    ensures var r, idx := ListedWindows(reported), ListedPositions(reported);
            |idx| == |r| && forall k :: 0 <= k < |idx| ==> r[k] == EntryOf(reported[idx[k]])
  {
    if |reported| > 0 {
      var prefix := reported[..|reported| - 1];
      ListedPositionsMatchEntries(prefix);
      var r, idx := ListedWindows(reported), ListedPositions(reported);
      var r0, idx0 := ListedWindows(prefix), ListedPositions(prefix);
      forall k | 0 <= k < |idx|
        ensures r[k] == EntryOf(reported[idx[k]])
      {
        if k < |idx0| {
          assert idx[k] == idx0[k] && r[k] == r0[k];
          assert reported[idx[k]] == prefix[idx0[k]];
        }
      }
    }
  }

  lemma {:induction false} ListedPositionsIncreasing(reported: seq<ReportedWindow>)
    ensures StrictlyIncreasing(ListedPositions(reported))
  {
    if |reported| > 0 {
      var n := |reported| - 1;
      ListedPositionsIncreasing(reported[..n]);
      var idx, idx0 := ListedPositions(reported), ListedPositions(reported[..n]);
      assert idx == idx0 + (if Listed(reported[n]) then [n] else []);
      assert forall k :: 0 <= k < |idx0| ==> idx0[k] < |reported[..n]| == n;
      forall k, l | 0 <= k < l < |idx|
        ensures idx[k] < idx[l]
      {
        if l < |idx0| {
          assert idx[k] == idx0[k] && idx[l] == idx0[l];
        } else {
          assert idx[k] == idx0[k] < n == idx[l];
        }
      }
    }
  }

  lemma {:induction false} ListedPositionsExact(reported: seq<ReportedWindow>)
    ensures var idx := ListedPositions(reported);
            forall i :: 0 <= i < |reported| ==> (Listed(reported[i]) <==> i in idx)
  {
    if |reported| > 0 {
      var n := |reported| - 1;
      var prefix := reported[..n];
      ListedPositionsExact(prefix);
      var idx, idx0 := ListedPositions(reported), ListedPositions(prefix);
      forall i | 0 <= i < |reported|
        ensures Listed(reported[i]) <==> i in idx
      {
        if i < n {
          assert reported[i] == prefix[i];
          assert i in idx0 <==> i in idx;
        }
      }
    }
  }

  /** The output is the order-preserving subsequence of the enumeration made of
      exactly its listed windows: nothing reordered, nothing merged. */
  lemma {:induction false} ListedWindowsIsOrderedSelection(reported: seq<ReportedWindow>)
    ensures OrderedSelection(ListedWindows(reported), reported, ListedPositions(reported))
  {
    ListedPositionsMatchEntries(reported);
    ListedPositionsIncreasing(reported);
    ListedPositionsExact(reported);
  }

  /** The filter does not merge windows that share a handle: the OS reporting
      the same handle twice yields two entries with that handle. */
  lemma DuplicateHandlesKept()
    ensures var r := ListedWindows([ReportedWindow(7, true, "Notepad"), ReportedWindow(7, true, "Notepad")]);
            |r| == 2 && r[0].hwnd == r[1].hwnd
  {
  }

  /** The callback loop itself: walk the enumeration in order and append each
      listed window's `(title, handle)` pair. */
  method CollectWindows(reported: seq<ReportedWindow>) returns (results: seq<WindowEntry>)
    ensures results == ListedWindows(reported)
  {
    results := [];
    var i := 0;
    while i < |reported|
      invariant 0 <= i <= |reported|
      invariant results == ListedWindows(reported[..i])
    {
      var w := reported[i];
      assert reported[..i + 1][..i] == reported[..i];
      if w.visible {
        var title := w.title;
        if |title| > 0 {
          results := results + [WindowEntry(title, w.hwnd)];
        }
      }
      i := i + 1;
    }
    assert reported[..i] == reported;
  }
}
