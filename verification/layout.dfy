/** The thumbnail grid: how many thumbnails make up the first row at a given
    viewport width, and which thumbnails are marked for lazy loading. */
module Layout {
  import Catalogue

  /** The number of thumbnails in the first row, by the 576 px and 768 px
      breakpoints. */
  function FirstRowCount(width: int): (n: nat)
    ensures 2 <= n <= 4
    ensures n == 2 <==> width < 576
    ensures n == 3 <==> 576 <= width < 768
    ensures n == 4 <==> 768 <= width
  {
    if width < 576 then 2 else if width < 768 then 3 else 4
  }

  /** A wider viewport never puts fewer thumbnails in the first row. */
  lemma FirstRowCountMonotone(narrow: int, wide: int)
    requires narrow <= wide
    ensures FirstRowCount(narrow) <= FirstRowCount(wide)
  {
  }

  /** One rendered thumbnail: the serial it previews, the position it
      carries as `data-index`, its image URL and whether it loads lazily. */
  datatype Thumb = Thumb(serial: string, index: nat, src: string, lazy: bool)

  /** Rendering a list of serials at a viewport width. */
  function Render(serials: seq<string>, width: int): (grid: seq<Thumb>)
    ensures |grid| == |serials|
    ensures forall i :: 0 <= i < |grid| ==>
      grid[i].serial == serials[i] && grid[i].index == i && grid[i].src == Catalogue.ImageUrl(serials[i])
    ensures forall i :: 0 <= i < |grid| ==> (grid[i].lazy <==> FirstRowCount(width) <= i)
  {
    seq(|serials|, i requires 0 <= i < |serials| =>
      Thumb(serials[i], i, Catalogue.ImageUrl(serials[i]), FirstRowCount(width) <= i))
  }

  /** The number of thumbnails that load eagerly. */
  function EagerCount(grid: seq<Thumb>): nat {
    if |grid| == 0 then 0
    else EagerCount(grid[..|grid| - 1]) + (if grid[|grid| - 1].lazy then 0 else 1)
  }

  lemma {:induction false} EagerCountOfPrefix(grid: seq<Thumb>, k: nat)
    requires forall i :: 0 <= i < |grid| ==> (grid[i].lazy <==> k <= i)
    ensures EagerCount(grid) == if |grid| < k then |grid| else k
  {
    if |grid| > 0 {
      EagerCountOfPrefix(grid[..|grid| - 1], k);
    }
  }

  /** Only the first row loads eagerly: a rendered grid has exactly as many
      eager thumbnails as the first row holds, or all of them when the grid
      is shorter than one row, and they are its leading thumbnails. */
  lemma EagerThumbsAreFirstRow(serials: seq<string>, width: int)
    ensures EagerCount(Render(serials, width)) ==
      if |serials| < FirstRowCount(width) then |serials| else FirstRowCount(width)
    ensures forall i, j :: 0 <= i < j < |serials| && Render(serials, width)[i].lazy ==> Render(serials, width)[j].lazy
  {
    EagerCountOfPrefix(Render(serials, width), FirstRowCount(width));
  }

  /** At 500 px only the first two thumbnails load eagerly, at 1000 px the
      first four. */
  lemma LazySamples(serials: seq<string>)
    requires 5 <= |serials|
    ensures !Render(serials, 500)[1].lazy && Render(serials, 500)[2].lazy
    ensures !Render(serials, 1000)[3].lazy && Render(serials, 1000)[4].lazy
  {
  }
}
