# PeekDock core, modelled in Dafny

PeekDock is a Windows desktop utility. It lists the visible top-level windows
and lets the user drag one into a dock area, where the window is re-parented
into a sub-window. Almost all of `main.py` is PyQt5 and pywin32 glue. This
project models the logic that remains once the Qt and OS calls are replaced by
abstract inputs and outputs:

- `enumeration.dfy` (`Enumeration`) models the window-enumeration filter of
  `enum_windows`. It keeps the visible windows with a non-empty title, in
  enumeration order. `CollectWindows` is the callback loop itself, and it is
  proved equal to the functional filter.
- `decimal.dfy` (`Decimal`) models `str(int)` and the part of `int(str)` that
  reads it back.
- `payload.dfy` (`Payload`) models the drag-and-drop protocol. `start_drag`
  stores `str(hwnd).encode()` under the private MIME format
  `application/x-peekdock-hwnd`. `dragEnterEvent` admits only drags that carry
  that format. The drop reads the handle back with `int(data.decode())`.
- `window_style.dfy` (`WindowStyle`) models the GWL_STYLE rewrite
  `style & ~WS_POPUP | WS_CHILD` on 32-bit patterns (`bv32`); `dock_window`'s
  model uses this version. `PyAsChildStyle` restates the rewrite on the signed
  LONG integers Python actually holds. It is a standalone cross-check with the
  same bit facts; no lemma connects the two versions.
- `docking.dfy` (`Docking`) models the registry `DockArea.docked`. It covers
  `dock_window`, which does nothing for a handle already present and otherwise
  inserts exactly one entry, and `dropEvent`, which feeds it. Each win32 call
  of `dock_window` may raise: the title lookup comes before the insert, and
  `SetParent`, `GetWindowLong` and `SetWindowLong` come after it. The module
  also covers series of dock requests and a two-window scenario.
- `results.dfy` (`Results`) holds the `Option`/`Result` types that stand for
  Python's exceptions.

The OS is represented by plain values:
- A `ReportedWindow` is what the enumeration callback observes about one
  window: `IsWindowVisible`, `GetWindowText` and the handle.
- A `DockContext` is what the OS and Qt report while a window is docked: its
  title, the new container's native id, the GWL_STYLE value, and which win32
  call raises, if any.
- An `OsCall` is a `SetParent` or `SetWindowLong` call attempted by
  `dock_window`, in order.

The enumeration filter does not deduplicate handles:
`Enumeration.DuplicateHandlesKept` shows a handle reported twice being listed
twice.

## Model

| member | source | states |
|---|---|---|
| `Enumeration.ListedWindows` | main.py:12-24 | Every returned pair comes from a reported window that is visible and has a non-empty title. Every such window's pair is returned. The output is never longer than the enumeration. |
| `Enumeration.ListedWindowsIsOrderedSelection` | main.py:14-24 | The output is the subsequence of the enumeration at exactly the listed positions, one pair per position, in strictly increasing order: nothing is reordered, dropped or merged. |
| `Enumeration.DuplicateHandlesKept` | main.py:16-20 | A handle reported twice yields two entries: the filter does not deduplicate. |
| `Enumeration.CollectWindows` | main.py:14-24 | The callback loop, which appends one pair per visible window with a non-empty title, computes the filter. |
| `Decimal.Text` | main.py:98 | `str(n)` is canonical decimal text (no leading zero, no "-0"). It starts with a minus sign exactly when `n` is negative. |
| `Decimal.Parse` | main.py:54 | `int(text)` succeeds exactly on an optional minus sign followed by ASCII digits. A negative result needs the sign. |
| `Decimal.ParseLeadingZero` | main.py:54 | A leading zero does not change the value read, with or without a minus sign. With `TextParse`, this fixes the value of every accepted text (`int("007") == 7`). |
| `Decimal.ParseMinusZero` | main.py:54 | `int("-0")` is 0. |
| `Decimal.ParseText` | main.py:98 | Round trip: parsing `str(n)` gives back `n`, for every integer. |
| `Decimal.TextParse` | main.py:54 | Reverse round trip: every canonical text parses to the integer whose text it is. |
| `Decimal.TextInjective` | main.py:98 | Distinct integers have distinct texts. |
| `Payload.DataFor` | main.py:53 | The bytes under a carried format are returned as stored. A format the drag lacks yields no bytes. |
| `Payload.EncodeAscii` | main.py:98 | `str.encode()` of ASCII text produces one byte per character, with the same code. |
| `Payload.DecodeAscii` | main.py:54 | Decoding succeeds exactly when every byte is below 0x80, and re-encoding the result gives the same bytes. |
| `Payload.AsciiRoundTrip` | main.py:98 | Decoding the encoded bytes of ASCII text gives the text back. |
| `Payload.DecodeHandle` | main.py:54 | `int(data.decode())` fails on empty data. It succeeds exactly when the bytes are ASCII decimal text, and the handle is then the value `int()` reads from that text. |
| `Payload.EncodeHandle` | main.py:98 | Decoding the payload bytes of a handle yields that handle. |
| `Payload.EncodeHandleIsDecimalText` | main.py:98 | The payload is, byte for byte, the handle's decimal text. |
| `Payload.EncodeHandleInjective` | main.py:98 | Distinct handles never share a payload. |
| `Payload.StartDrag` | main.py:95-98 | The drag carries only the private format, and its bytes decode to the dragged handle. |
| `Payload.DragEnter` | main.py:46-50 | A drag is admitted exactly when it carries the private format, whatever bytes are stored under it (even none). The drop of an admitted drag reads those bytes. An ignored drag yields no bytes, so reading a handle from it fails as `int('')` does. |
| `Payload.StartDragAdmitted` | main.py:46-50 | Every drag `start_drag` begins is admitted. An ignored drag has no handle to offer. |
| `WindowStyle.AsChildStyle` | main.py:71-73 | The rewritten style has WS_CHILD set and WS_POPUP clear. Every other bit is unchanged. |
| `WindowStyle.AsChildStyleIdempotent` | main.py:72 | Rewriting twice equals rewriting once. |
| `WindowStyle.AsChildStyleForgetsOnlyTwoBits` | main.py:72 | Two styles rewrite alike exactly when they agree on every bit except WS_POPUP and WS_CHILD. |
| `WindowStyle.PyAsChildStyle` | main.py:71-73 | On a signed 32-bit LONG, Python's result lies in [2^30, 2^31). So bit 30 is set, bit 31 is clear and the value fits a LONG again. Its low 30 bits are those of the input. |
| `WindowStyle.PyAsChildStyleIdempotent` | main.py:72 | The integer rewrite is idempotent. |
| `Docking.DockWindow` | main.py:58-73 | If the handle is already docked, the registry is unchanged and no OS call is made. If the title lookup raises, nothing changes either. Otherwise exactly the new key is added, with its title and container, before any later call. Then `SetParent` to that container is attempted. If `SetParent` and `GetWindowLong` succeed, the style write is attempted with WS_CHILD set, WS_POPUP clear and other bits kept. The call raises exactly when some win32 call fails. Existing entries are untouched. |
| `Docking.DockWindowIdempotent` | main.py:58-60 | The first call registers the handle unless its title lookup raised. Once the handle is registered, a second call changes nothing and makes no OS call. |
| `Docking.FailedDockBlocksRedock` | main.py:58-73 | A dock whose `SetParent` or style calls raise still leaves the handle registered. Every later dock of it is then a no-op, so the re-parenting is never retried. |
| `Docking.DockWindowGrowsByAtMostOne` | main.py:58-68 | No key is lost and only the given key can appear. The size grows by one exactly when that key was new and its title lookup did not raise. |
| `Docking.Drop` | main.py:52-56 | The drop fails exactly when reading the handle fails, with that error, before any OS call. Otherwise it is `dock_window` of the decoded handle. The keys become the old keys plus that handle, unless the title lookup raised. Old entries are untouched. A known handle makes no OS call. A new handle gets its title and container as its slot, and `SetParent` is attempted first. Both calls are issued when none fails. The drop raises exactly when some win32 call fails. |
| `Docking.DropOwnPayload` | main.py:52-56 | Dropping the payload `start_drag` built docks exactly the dragged handle. Only a title lookup that raises leaves the registry as it was. |
| `Docking.DropForeignPayload` | main.py:46-54 | A drag without the private format (one `dragEnterEvent` ignores) has empty data, so `int` raises and the registry is unchanged. |
| `Docking.DropMalformedPayload` | main.py:53-55 | A payload that is not ASCII decimal text raises before `dock_window`, and the registry is unchanged. |
| `Docking.DropTwice` | main.py:52-60 | Dropping the same payload twice leaves the registry as one drop left it. The exception is a first drop whose title lookup raised: it left the registry unchanged, so the second drop acts as a first. |
| `Docking.DockSeriesKeys` | main.py:44-68 | After any series of dock requests, the keys are the earlier keys plus every handle whose request's title lookup, if made, did not raise, and earlier slots are untouched. The key set only grows. |
| `Docking.DockSeriesFirstWins` | main.py:58-68 | The first request for a new handle whose title lookup does not raise decides its slot. Later requests for it change nothing. |
| `Docking.NotepadScenario` | main.py:46-60 | Notepad (101) and Calculator (202) are listed in order. Dropping Notepad into an empty dock with every win32 call succeeding registers only 101, and dropping it again changes nothing. |
| `Docking.DropListedWindow` | main.py:95-98 | Any handle the selector list shows belongs to a visible, titled window. Its drag is admitted, and dropping it docks that handle unless its title lookup raises. |

## Left out

- Qt is not modelled: list-widget population, `QWindow.fromWinId`, `createWindowContainer`, `addSubWindow`, sub-window titles and sizes (200×150), window opacity, `QDrag.exec_` and the event loop. They are UI plumbing over a library outside this model. The Qt objects kept in the registry are represented by the sub-window title and the container's native id.
- The win32 calls (`EnumWindows`, `IsWindowVisible`, `GetWindowText`, `SetParent`, `GetWindowLong`, `SetWindowLong`) have no model. Their results are inputs (`ReportedWindow`, `DockContext`), and `DockContext` also says which call of `dock_window` raises. The mutating calls are outputs (`OsCall`).
- The platform guard at main.py:4-5 is a startup check, not core logic.
- `dropEvent` is modelled with Qt's ordering assumed. Qt calls it only after `dragEnterEvent` accepted the drag. What PyQt does with any exception that leaves `dropEvent` is not modelled. This covers a malformed payload and a `dock_window` that raises at main.py:61, 70, 71 or 73. From PyQt5 5.5 on, such an exception calls `qFatal()` and ends the process, because main.py does not replace `sys.excepthook`. The model instead returns the decode error, or reports the raise in `DockOutcome.raised`, and keeps the registry as the exception left it. The lemmas about later drops and docks (`FailedDockBlocksRedock`, `DropTwice`, `DockSeriesKeys`, `DockSeriesFirstWins`, `NotepadScenario`) describe the registry logic on the assumption that the process survives.
- Slot close and release, mirror backends (compositor thumbnails, polled capture) and minimising the source window are not modelled: none of them appear in main.py. For the same reason, no operation removes a registry entry.
- Decimal.Parse: stricter than Python's `int()`. Python also accepts surrounding whitespace, a leading `+`, underscores between digits and non-ASCII Unicode digits. The model accepts only an optional `-` followed by ASCII digits, which covers everything `str(int)` emits. In the other direction, Python 3.11 and later reject texts of more than 4300 digits, which the model accepts.
- Payload.DecodeAscii: treats any byte at or above 0x80 as a failure. Python's UTF-8 decode accepts well-formed multi-byte sequences. The characters they give can reach `int()` only as non-ASCII text, which `Decimal.Parse` rejects anyway.
- WindowStyle.PyAsChildStyle: takes the popup constant to be the signed LONG value -2^31 (pattern 0x80000000), and the style to be the signed LONG that `GetWindowLong` returns. The `win32con` module is not part of this model.
- Enumeration.ListedWindows: assumes `IsWindowVisible` and `GetWindowText` inside the callback (main.py:17-18) do not raise. In the source such an exception would leave `EnumWindows` (main.py:23), and no list would be returned. The model has no error path for it.
- Docking.DockWindow: does not derive from the handle's value whether win32gui raises. pywin32 raises at main.py:61 for a value it cannot convert to an HWND (2^64, say), before the insert at main.py:68. The model represents that case only when `DockContext.failure` is `TitleLookupFails`. Window handles are otherwise unbounded integers, and pywin32 is not part of this model.
- Docking.DockWindow: the Qt calls between main.py:61 and main.py:68 (`fromWinId`, `createWindowContainer`, `addSubWindow`) are assumed not to raise.
