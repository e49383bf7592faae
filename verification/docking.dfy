/** The dock area's registry of docked windows, and the drop handler that feeds
    it. Docking a handle that is already registered does nothing; docking a
    new one registers it, makes the native window a child of a fresh container
    and rewrites its style bits. Any of the win32 calls involved may raise;
    only one that raises before the insert keeps the handle out of the
    registry. Nothing ever removes an entry. */
module Docking {
  import opened Results
  import opened Enumeration
  import opened Payload
  import WindowStyle

  /** What the registry keeps for a docked handle. The Qt objects the code
      stores (window wrapper, container, sub-window) are represented by the
      title given to the sub-window and the container's native window id. */
  datatype Slot = Slot(title: string, container: int)

  /** `DockArea.docked`: at most one slot per handle, by construction. */
  type Registry = map<Handle, Slot>

  /** Which win32 call of `dock_window`, if any, raises. The title lookup
      comes before the insert into the registry; the other three come after
      it. */
  datatype Win32Failure =
    | NoFailure
    | TitleLookupFails  // GetWindowText, e.g. for a value that is no HWND
    | SetParentFails
    | StyleReadFails    // GetWindowLong
    | StyleWriteFails   // SetWindowLong

  /** What the OS and Qt report while a new window is being docked: its title
      (GetWindowText), the native id of the container created for it
      (`container.winId()`), its GWL_STYLE value (GetWindowLong), and which
      win32 call raises, if any. */
  datatype DockContext = DockContext(title: string, container: int, style: bv32, failure: Win32Failure)

  /** The title lookup, if the call makes it, does not raise; for a handle
      not yet docked the call then reaches the insert. */
  predicate Registers(ctx: DockContext) {
    ctx.failure != TitleLookupFails
  }

  /** The OS-level calls `dock_window` attempts on the docked window. */
  datatype OsCall =
    | SetParent(child: Handle, parent: int)
    | SetWindowStyle(window: Handle, style: bv32)

  /** The registry after a call, the OS calls attempted in order, and whether
      the call ended by raising. */
  datatype DockOutcome = DockOutcome(docked: Registry, calls: seq<OsCall>, raised: bool)

  /** `dock_window(hwnd)`. */
  function DockWindow(docked: Registry, hwnd: Handle, ctx: DockContext): (r: DockOutcome)
    ensures hwnd in docked ==> r == DockOutcome(docked, [], false)
    ensures hwnd !in docked && !Registers(ctx) ==> r.docked == docked && r.calls == [] && r.raised
    ensures hwnd !in docked && Registers(ctx) ==>
              && r.docked.Keys == docked.Keys + {hwnd}
              && r.docked[hwnd] == Slot(ctx.title, ctx.container)
              && (r.raised <==> ctx.failure != NoFailure)
              && 1 <= |r.calls| <= 2
              && r.calls[0] == SetParent(hwnd, ctx.container)
              && (|r.calls| == 2 <==> ctx.failure == NoFailure || ctx.failure == StyleWriteFails)
    ensures hwnd !in docked && |r.calls| == 2 ==>
              && r.calls[1].SetWindowStyle? && r.calls[1].window == hwnd
              && r.calls[1].style & WindowStyle.WS_CHILD == WindowStyle.WS_CHILD
              && r.calls[1].style & WindowStyle.WS_POPUP == 0
              && r.calls[1].style & WindowStyle.Untouched == ctx.style & WindowStyle.Untouched
    ensures forall h :: h in docked ==> h in r.docked && r.docked[h] == docked[h]
  {
    if hwnd in docked then DockOutcome(docked, [], false)
    else
      var after := docked[hwnd := Slot(ctx.title, ctx.container)];
      var parent := SetParent(hwnd, ctx.container);
      var restyle := SetWindowStyle(hwnd, WindowStyle.AsChildStyle(ctx.style));
      match ctx.failure
      case TitleLookupFails => DockOutcome(docked, [], true)
      case SetParentFails => DockOutcome(after, [parent], true)
      case StyleReadFails => DockOutcome(after, [parent], true)
      case StyleWriteFails => DockOutcome(after, [parent, restyle], true)
      case NoFailure => DockOutcome(after, [parent, restyle], false)
  }

  /** Once a handle is registered, docking it again changes nothing and makes
      no OS call; the first call registers it unless its title lookup
      raised. */
  lemma DockWindowIdempotent(docked: Registry, hwnd: Handle, first: DockContext, second: DockContext)
    ensures var once := DockWindow(docked, hwnd, first).docked;
            && (hwnd in once <==> hwnd in docked || Registers(first))
            && (hwnd in once ==> DockWindow(once, hwnd, second) == DockOutcome(once, [], false))
  {
  }

  /** A dock that raises after the insert (in SetParent, GetWindowLong or
      SetWindowLong) still leaves the handle registered, so every later dock
      of that handle is a no-op and the re-parenting or restyling is never
      retried. */
  lemma FailedDockBlocksRedock(docked: Registry, hwnd: Handle, first: DockContext, second: DockContext)
    requires hwnd !in docked
    requires Registers(first) && first.failure != NoFailure
    ensures var out := DockWindow(docked, hwnd, first);
            && out.raised
            && hwnd in out.docked
            && DockWindow(out.docked, hwnd, second).calls == []
            && DockWindow(out.docked, hwnd, second).docked == out.docked
  {
  }

  /** A single call adds at most the one key it was given, never loses a key,
      and grows the registry by one exactly when the handle was new and its
      title lookup did not raise. */
  lemma DockWindowGrowsByAtMostOne(docked: Registry, hwnd: Handle, ctx: DockContext)
    ensures var after := DockWindow(docked, hwnd, ctx).docked;
            && docked.Keys <= after.Keys
            && after.Keys - docked.Keys <= {hwnd}
            && |after| == if hwnd in docked || !Registers(ctx) then |docked| else |docked| + 1
  {
  }

  /** `dropEvent`: read the handle from the private format's bytes and dock
      it. When reading fails the exception leaves the handler before
      `dock_window` runs, so the registry is unchanged and no OS call is made;
      the error is returned in place of the exception. When `dock_window`
      itself raises, the outcome says so and carries the registry as it
      stands. */
  function Drop(docked: Registry, mime: MimeData, ctx: DockContext): (r: Result<DockOutcome, DecodeError>)
    ensures r.Ok? <==> DecodeHandle(DataFor(mime, HwndFormat)).Ok?
    ensures r.Err? ==> r.error == DecodeHandle(DataFor(mime, HwndFormat)).error
    ensures r.Ok? ==>
              var hwnd := DecodeHandle(DataFor(mime, HwndFormat)).value;
              && r.value.docked.Keys == (if Registers(ctx) then docked.Keys + {hwnd} else docked.Keys)
              && forall h :: h in docked ==> r.value.docked[h] == docked[h]
    ensures r.Ok? ==>
              var hwnd := DecodeHandle(DataFor(mime, HwndFormat)).value;
              && (hwnd in docked ==> r.value == DockOutcome(docked, [], false))
              && (hwnd !in docked && !Registers(ctx) ==> r.value.calls == [] && r.value.raised)
              && (hwnd !in docked && Registers(ctx) ==>
                    && r.value.docked[hwnd] == Slot(ctx.title, ctx.container)
                    && (r.value.raised <==> ctx.failure != NoFailure)
                    && |r.value.calls| >= 1
                    && r.value.calls[0] == SetParent(hwnd, ctx.container)
                    && (ctx.failure == NoFailure ==>
                          r.value.calls == [SetParent(hwnd, ctx.container),
                                            SetWindowStyle(hwnd, WindowStyle.AsChildStyle(ctx.style))]))
    ensures r.Ok? ==> r.value == DockWindow(docked, DecodeHandle(DataFor(mime, HwndFormat)).value, ctx)
  {
    match DecodeHandle(DataFor(mime, HwndFormat))
    case Err(e) => Err(e)
    case Ok(hwnd) => Ok(DockWindow(docked, hwnd, ctx))
  }

  /** The registry as the dock area holds it after a drop, whether the drop
      docked something or raised. */
  function DockedAfterDrop(docked: Registry, mime: MimeData, ctx: DockContext): Registry {
    match Drop(docked, mime, ctx)
    case Ok(out) => out.docked
    case Err(_) => docked
  }

  /** A drop of the payload `start_drag` built docks exactly the dragged
      handle; only a title lookup that raises keeps the registry as it was. */
  lemma DropOwnPayload(docked: Registry, hwnd: Handle, ctx: DockContext)
    ensures Drop(docked, StartDrag(hwnd), ctx) == Ok(DockWindow(docked, hwnd, ctx))
    ensures Registers(ctx) ==> hwnd in DockedAfterDrop(docked, StartDrag(hwnd), ctx)
    ensures !Registers(ctx) ==> DockedAfterDrop(docked, StartDrag(hwnd), ctx) == docked
  {
  }

  /** A drag without the private format, which `dragEnterEvent` ignores, could
      not dock anything even if it were dropped: its payload is empty, reading
      it fails, and the registry is unchanged. */
  lemma DropForeignPayload(docked: Registry, mime: MimeData, ctx: DockContext)
    requires !DragEnter(mime)
    ensures Drop(docked, mime, ctx) == Err(NotDecimal)
    ensures DockedAfterDrop(docked, mime, ctx) == docked
  {
  }

  /** A payload under the private format that is not decimal text makes the
      drop raise, and nothing is docked. */
  lemma DropMalformedPayload(docked: Registry, mime: MimeData, ctx: DockContext)
    requires HwndFormat in mime
    requires DecodeAscii(mime[HwndFormat]).None? || !Decimal.IsDecimalText(DecodeAscii(mime[HwndFormat]).value)
    ensures Drop(docked, mime, ctx).Err?
    ensures DockedAfterDrop(docked, mime, ctx) == docked
  {
  }

  /** Dropping the same payload twice leaves the registry as one drop left
      it, unless the first drop's title lookup raised: then the first drop
      left nothing behind and the second acts as a first. */
  lemma DropTwice(docked: Registry, mime: MimeData, first: DockContext, second: DockContext)
    ensures var once := DockedAfterDrop(docked, mime, first);
            && (Registers(first) ==> DockedAfterDrop(once, mime, second) == once)
            && (!Registers(first) ==> once == docked)
  {
  }

  /** One request to dock a handle, with what the OS reports while it is
      docked. */
  datatype DockRequest = DockRequest(hwnd: Handle, ctx: DockContext)

  /** The registry after a series of `dock_window` calls, in order. */
  function DockSeries(docked: Registry, requests: seq<DockRequest>): Registry {
    if |requests| == 0 then docked
    else
      var last := requests[|requests| - 1];
      DockWindow(DockSeries(docked, requests[..|requests| - 1]), last.hwnd, last.ctx).docked
  }

  /** The handles named by the requests that reach the insert. */
  function RegisteredHandles(requests: seq<DockRequest>): set<Handle> {
    set i | 0 <= i < |requests| && Registers(requests[i].ctx) :: requests[i].hwnd
  }

  /** After any series of dock requests the registry holds exactly the handles
      it held before plus every requested handle, and the slots it held before
      are untouched: the key set only grows. A request whose title lookup
      raised adds nothing. */
  lemma {:induction false} DockSeriesKeys(docked: Registry, requests: seq<DockRequest>)
    ensures DockSeries(docked, requests).Keys == docked.Keys + RegisteredHandles(requests)
    ensures forall h :: h in docked ==> DockSeries(docked, requests)[h] == docked[h]
  {
    if |requests| > 0 {
      var n := |requests| - 1;
      var prefix := requests[..n];
      DockSeriesKeys(docked, prefix);
      var last := requests[n];
      var added := if Registers(last.ctx) then {last.hwnd} else {};
      assert RegisteredHandles(requests) == RegisteredHandles(prefix) + added by {
        forall h | h in RegisteredHandles(requests)
          ensures h in RegisteredHandles(prefix) + added
        {
          var i :| 0 <= i < |requests| && Registers(requests[i].ctx) && requests[i].hwnd == h;
          if i < n {
            assert prefix[i] == requests[i];
          }
        }
        forall h | h in RegisteredHandles(prefix)
          ensures h in RegisteredHandles(requests)
        {
          var i :| 0 <= i < |prefix| && Registers(prefix[i].ctx) && prefix[i].hwnd == h;
          assert requests[i] == prefix[i];
        }
      }
    }
  }

  /** The first request for a new handle whose title lookup does not raise
      decides its slot: later requests for the same handle change nothing. */
  lemma {:induction false} DockSeriesFirstWins(docked: Registry, requests: seq<DockRequest>, i: int)
    requires 0 <= i < |requests|
    requires requests[i].hwnd !in docked && Registers(requests[i].ctx)
    requires forall j :: 0 <= j < i && requests[j].hwnd == requests[i].hwnd ==> !Registers(requests[j].ctx)
    ensures var r := DockSeries(docked, requests);
            var h := requests[i].hwnd;
            h in r && r[h] == Slot(requests[i].ctx.title, requests[i].ctx.container)
  {
    var n := |requests| - 1;
    var prefix := requests[..n];
    var h := requests[i].hwnd;
    if i == n {
      DockSeriesKeys(docked, prefix);
    } else {
      assert prefix[i] == requests[i];
      forall j | 0 <= j < i && prefix[j].hwnd == prefix[i].hwnd
        ensures !Registers(prefix[j].ctx)
      {
        assert prefix[j] == requests[j];
      }
      DockSeriesFirstWins(docked, prefix, i);
    }
  }

  /** A two-window scenario: the OS reports Notepad (101) and Calculator (202);
      Notepad is dragged into the empty dock area and dropped, and every win32
      call succeeds; then it is dropped again. The first drop registers 101
      alone; the second changes nothing. */
  lemma NotepadScenario(container: int, style: bv32, second: DockContext)
    ensures var first := DockContext("Notepad", container, style, NoFailure);
            var listed := ListedWindows([ReportedWindow(101, true, "Notepad"), ReportedWindow(202, true, "Calculator")]);
            var hwnd := listed[0].hwnd;
            var once := DockedAfterDrop(map[], StartDrag(hwnd), first);
            && listed == [WindowEntry("Notepad", 101), WindowEntry("Calculator", 202)]
            && once.Keys == {101}
            && DockedAfterDrop(once, StartDrag(hwnd), second) == once
  {
  }

  /** Any handle the selector list shows belongs to a window the OS reported
      as visible with a non-empty title; it can be dragged and dropped, and
      the drop docks exactly that handle unless its title lookup raises. */
  lemma DropListedWindow(reported: seq<ReportedWindow>, k: int, docked: Registry, ctx: DockContext)
    requires 0 <= k < |ListedWindows(reported)|
    ensures var hwnd := ListedWindows(reported)[k].hwnd;
            && (exists w :: w in reported && Listed(w) && w.hwnd == hwnd)
            && DragEnter(StartDrag(hwnd))
            && Drop(docked, StartDrag(hwnd), ctx) == Ok(DockWindow(docked, hwnd, ctx))
            && (Registers(ctx) ==> hwnd in DockedAfterDrop(docked, StartDrag(hwnd), ctx))
  {
  }
}
