/** The two heights the picker derives from the number of sessions. */
module Layout {

  /** Height of one list item (the style sheet's item height). */
  const ItemHeight: int := 40
  /** The formula's 20 units for each item after the first. */
  const ItemGap: int := 20
  /** Vertical offset of the list inside the window. */
  const ListTop: int := 55

  /** Height of the list for n sessions: 40 per item plus 20 per item after
      the first. */
  function ListHeight(n: int): (h: int)
    ensures h == 60 * n - 20
    ensures h == n * ItemHeight + (n - 1) * ItemGap
  {
    40 * n + 20 * (n - 1)
  }

  /** Height of the window for n sessions. */
  function WindowHeight(n: int): (h: int)
    ensures h == 60 * n + 35
    ensures h == ListTop + ListHeight(n)
  {
    55 + 40 * n + 20 * (n - 1)
  }
}
