/** The window-style rewrite applied to a docked window: clear the popup bit and
    set the child bit of its GWL_STYLE value, leaving every other bit alone. */
module WindowStyle {

  /** The Win32 style bits involved, as 32-bit patterns. */
  const WS_POPUP: bv32 := 0x8000_0000
  const WS_CHILD: bv32 := 0x4000_0000

  /** Every bit the rewrite does not touch. */
  const Untouched: bv32 := !(WS_POPUP | WS_CHILD)

  /** `style & ~WS_POPUP | WS_CHILD`, which Python groups as
      `(style & ~WS_POPUP) | WS_CHILD` because `&` binds tighter than `|`. */
  function AsChildStyle(style: bv32): (r: bv32)
    ensures r & WS_CHILD == WS_CHILD
    ensures r & WS_POPUP == 0
    ensures r & Untouched == style & Untouched
  {
    (style & !WS_POPUP) | WS_CHILD
  }

  /** Rewriting an already rewritten style changes nothing. */
  lemma AsChildStyleIdempotent(style: bv32)
    ensures AsChildStyle(AsChildStyle(style)) == AsChildStyle(style)
  {
  }

  lemma AgreeingStylesRewriteAlike(a: bv32, b: bv32)
    requires a & Untouched == b & Untouched
    ensures AsChildStyle(a) == AsChildStyle(b)
  {
  }

  /** Two styles rewrite to the same value exactly when they agree on every
      untouched bit: the rewrite forgets the popup and child bits and nothing
      else. */
  lemma AsChildStyleForgetsOnlyTwoBits(a: bv32, b: bv32)
    ensures AsChildStyle(a) == AsChildStyle(b) <==> a & Untouched == b & Untouched
  {
    if a & Untouched == b & Untouched {
      AgreeingStylesRewriteAlike(a, b);
    }
  }

  /** The same rewrite on the integers Python actually holds: GetWindowLong
      returns a signed 32-bit LONG, and the popup constant is the signed value
      -2^31, so `~WS_POPUP` is the mask 2^31 - 1. On integers, `x & (2^31 - 1)`
      is the floor remainder of `x` modulo 2^31, and `| 2^30` on a value below
      2^31 adds 2^30 exactly when that bit is clear. The result is
      non-negative with bit 30 set and bit 31 clear, so it fits a LONG again,
      and its low 30 bits are those of the input. */
  function PyAsChildStyle(style: int): (r: int)
    requires -0x8000_0000 <= style < 0x8000_0000
    ensures 0x4000_0000 <= r < 0x8000_0000
    ensures r % 0x4000_0000 == style % 0x4000_0000
  {
    var low := style % 0x8000_0000;
    if low >= 0x4000_0000 then low else low + 0x4000_0000
  }

  lemma PyAsChildStyleIdempotent(style: int)
    requires -0x8000_0000 <= style < 0x8000_0000
    ensures PyAsChildStyle(PyAsChildStyle(style)) == PyAsChildStyle(style)
  {
  }
}
