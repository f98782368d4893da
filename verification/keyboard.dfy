/** Keys the grid reacts to, and the highlight arithmetic shared by the product
    dropdown of the grid (src/hooks/useProductTable.ts) and the `Select` control
    (src/components/ui/Select.tsx). */
module Keyboard {

  /** `KeyboardEvent.key`, reduced to the values the handlers compare against;
      `Printable` is a one-character key such as `"p"`. */
  datatype Key = ArrowDown | ArrowUp | Enter | Escape | Tab | Printable(c: char) | OtherKey

  /** ArrowDown in a list of `n` entries: the next entry, wrapping to the first. */
  function HighlightDown(i: int, n: int): int {
    if i < n - 1 then i + 1 else 0
  }

  /** ArrowUp in a list of `n` entries: the previous entry, wrapping to the last. */
  function HighlightUp(i: int, n: int): int {
    if i > 0 then i - 1 else n - 1
  }

  /** From no highlight (-1) or any entry of a non-empty list, both moves land on an entry. */
  lemma HighlightInRange(i: int, n: int)
    requires n >= 1 && -1 <= i < n
    ensures 0 <= HighlightDown(i, n) < n
    ensures 0 <= HighlightUp(i, n) < n
  {
  }

  /** On the entries of a non-empty list the two moves undo each other. */
  lemma HighlightInverse(i: int, n: int)
    requires 0 <= i < n
    ensures HighlightUp(HighlightDown(i, n), n) == i
    ensures HighlightDown(HighlightUp(i, n), n) == i
  {
  }

  /** With nothing highlighted, ArrowDown picks the first entry and ArrowUp the last;
      in an empty list ArrowDown still yields 0 and ArrowUp -1, indices no entry has. */
  lemma HighlightFromNone(n: int)
    requires n >= 0
    ensures HighlightDown(-1, n) == 0
    ensures HighlightUp(-1, n) == n - 1
  {
  }
}
