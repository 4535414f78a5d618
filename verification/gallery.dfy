/** The gallery's selection state machine: the current index into the
    catalogue, the URL fragment, whether the modal viewer is shown and the
    thumbnail grid last rendered, with one transition per event handler. */
module Gallery {
  import opened Wrappers
  import Text
  import Catalogue
  import Layout

  datatype State = State(
    currentIndex: int,
    hash: string,          // `location.hash`: "" or "#" followed by the fragment
    modalSerial: string,   // the modal image's `src` is `ImageUrl(modalSerial)`
    modalOpen: bool,       // the modal carries the `show` class
    grid: seq<Layout.Thumb>)

  /** JavaScript's `a % n` with `n` the catalogue length: the remainder
      truncates toward zero, so it takes the sign of `a`. */
  function JsRem(a: int): (r: int)
    ensures -Catalogue.Count < r < Catalogue.Count
    ensures 0 <= a ==> 0 <= r
    ensures a < 0 ==> r <= 0
    ensures 0 <= a < Catalogue.Count ==> r == a
    ensures Catalogue.Count <= a < 2 * Catalogue.Count ==> r == a - Catalogue.Count
    ensures -Catalogue.Count < a < 0 ==> r == a
    ensures (a - r) % Catalogue.Count == 0
  {
    if 0 <= a then a % Catalogue.Count else -((-a) % Catalogue.Count)
  }

  /** `serials[i]` as a template literal renders it: the serial, or the
      text "undefined" when `i` is outside the catalogue. */
  function SerialAt(i: int): (serial: string)
    ensures 0 <= i < Catalogue.Count ==> serial == Catalogue.Serials()[i]
    ensures !(0 <= i < Catalogue.Count) ==> serial == "undefined"
  {
    if 0 <= i < Catalogue.Count then Catalogue.Serials()[i] else "undefined"
  }

  /** `showImage`: point the modal image and the URL fragment at the
      current serial, nothing else. */
  function ShowImage(s: State): (r: State)
    ensures r.currentIndex == s.currentIndex && r.modalOpen == s.modalOpen && r.grid == s.grid
    ensures |r.hash| >= 1 && r.hash[0] == '#' && r.hash[1..] == SerialAt(s.currentIndex)
    ensures r.modalSerial == SerialAt(s.currentIndex)
  {
    var serial := SerialAt(s.currentIndex);
    s.(modalSerial := serial, hash := "#" + serial)
  }

  /** The modal shows the current serial and the fragment names it. */
  predicate Displays(s: State) {
    && 0 <= s.currentIndex < |Catalogue.Serials()|
    && s.hash == "#" + Catalogue.Serials()[s.currentIndex]
    && s.modalSerial == Catalogue.Serials()[s.currentIndex]
  }

  /** The previous button: step back one, wrapping from the first serial
      to the last, across the whole catalogue. */
  function Prev(s: State): (r: State)
    ensures 0 <= s.currentIndex < Catalogue.Count ==> Displays(r)
    ensures 0 < s.currentIndex < Catalogue.Count ==> r.currentIndex == s.currentIndex - 1
    ensures s.currentIndex == 0 ==> r.currentIndex == Catalogue.Count - 1
    ensures r.modalOpen == s.modalOpen && r.grid == s.grid
  {
    ShowImage(s.(currentIndex := JsRem(s.currentIndex - 1 + Catalogue.Count)))
  }

  /** The next button: step forward one, wrapping from the last serial to
      the first, across the whole catalogue. */
  function Next(s: State): (r: State)
    ensures 0 <= s.currentIndex < Catalogue.Count ==> Displays(r)
    ensures 0 <= s.currentIndex < Catalogue.Count - 1 ==> r.currentIndex == s.currentIndex + 1
    ensures s.currentIndex == Catalogue.Count - 1 ==> r.currentIndex == 0
    ensures r.modalOpen == s.modalOpen && r.grid == s.grid
  {
    ShowImage(s.(currentIndex := JsRem(s.currentIndex + 1)))
  }

  /** Each of prev and next undoes the other: the index comes back and the
      display is refreshed onto it. */
  lemma PrevNextInverse(s: State)
    requires 0 <= s.currentIndex < Catalogue.Count
    ensures Prev(Next(s)) == ShowImage(s)
    ensures Next(Prev(s)) == ShowImage(s)
  {
  }

  /** `k` presses of the next button. */
  function NextTimes(s: State, k: nat): State {
    if k == 0 then s else Next(NextTimes(s, k - 1))
  }

  /** The index `k` nexts reach from index `i`. */
  function Advance(i: int, k: nat): int {
    if k == 0 then i else JsRem(Advance(i, k - 1) + 1)
  }

  /** `k` nexts move the index as `Advance` does, whatever the display. */
  lemma {:induction false} NextTimesAdvance(s: State, k: nat)
    ensures NextTimes(s, k).currentIndex == Advance(s.currentIndex, k)
  {
    if k > 0 {
      NextTimesAdvance(s, k - 1);
      var before := NextTimes(s, k - 1);
      assert NextTimes(s, k) == Next(before);
    }
  }

  /** Up to a full lap, advancing `k` places from a catalogue position
      moves `k` forward, wrapping once past the last serial. */
  lemma {:induction false} AdvanceWraps(i: int, k: nat)
    requires 0 <= i < Catalogue.Count
    requires k <= Catalogue.Count
    ensures Advance(i, k) == if i + k < Catalogue.Count then i + k else i + k - Catalogue.Count
  {
    if k > 0 {
      AdvanceWraps(i, k - 1);
    }
  }

  /** Up to a full lap, `k` nexts move `k` places forward, wrapping once
      past the last serial. */
  lemma {:induction false} NextTimesIndex(s: State, k: nat)
    requires 0 <= s.currentIndex < Catalogue.Count
    requires k <= Catalogue.Count
    ensures NextTimes(s, k).currentIndex ==
      if s.currentIndex + k < Catalogue.Count then s.currentIndex + k else s.currentIndex + k - Catalogue.Count
  {
    NextTimesAdvance(s, k);
    AdvanceWraps(s.currentIndex, k);
  }

  /** A full lap of 28 nexts returns to the starting serial. */
  lemma FullLap(s: State)
    requires 0 <= s.currentIndex < Catalogue.Count
    ensures NextTimes(s, Catalogue.Count).currentIndex == s.currentIndex
    ensures Displays(NextTimes(s, Catalogue.Count))
  {
    NextTimesIndex(s, Catalogue.Count);
  }

  /** The `show.bs.modal` handler. When the opening element carries a
      `data-index`, that number becomes the current index and is shown;
      either way the modal ends up shown. */
  function OnModalShow(s: State, dataIndex: Option<int>): (r: State)
    ensures r.modalOpen && r.grid == s.grid
    ensures dataIndex.None? ==> r == s.(modalOpen := true)
    ensures dataIndex.Some? ==> r.currentIndex == dataIndex.value && r.hash == "#" + SerialAt(dataIndex.value)
    ensures dataIndex.Some? ==> r.modalSerial == SerialAt(dataIndex.value)
  {
    match dataIndex
    case None => s.(modalOpen := true)
    case Some(i) => ShowImage(s.(currentIndex := i)).(modalOpen := true)
  }

  /** `bootstrap.Modal(...).show()` called from script: the show event
      fires without an opening element. */
  function OpenModal(s: State): (r: State)
    ensures r.modalOpen
    ensures r.currentIndex == s.currentIndex && r.hash == s.hash && r.modalSerial == s.modalSerial && r.grid == s.grid
  {
    OnModalShow(s, None)
  }

  /** The `hidden.bs.modal` handler: the fragment is cleared back to the
      bare path; the current index is kept. */
  function OnModalHidden(s: State): (r: State)
    ensures !r.modalOpen && r.hash == ""
    ensures r.currentIndex == s.currentIndex && r.modalSerial == s.modalSerial && r.grid == s.grid
  {
    s.(hash := "", modalOpen := false)
  }

  /** Once the modal is closed the fragment no longer restores a
      selection: reloading would leave the gallery closed. */
  lemma ClosedModalRestoresNothing(s: State)
    ensures LoadFromHash(OnModalHidden(s)) == OnModalHidden(s)
  {
    assert Fragment(OnModalHidden(s).hash) == "";
    if "" in Catalogue.Serials() {
      var i :| 0 <= i < Catalogue.Count && Catalogue.Serials()[i] == "";
      Catalogue.SerialNumberAt(i);
      assert false;
    }
  }

  /** `location.hash.substring(1)`. */
  function Fragment(hash: string): (fragment: string)
    ensures |hash| == 0 ==> fragment == ""
    ensures |hash| > 0 ==> [hash[0]] + fragment == hash
  {
    if |hash| == 0 then "" else hash[1..]
  }

  /** The catalogue position the fragment names, if it names a serial. */
  function HashTarget(hash: string): (r: Option<nat>)
    ensures r.Some? <==> Fragment(hash) in Catalogue.Serials()
    ensures r.Some? ==> r.value < Catalogue.Count && Catalogue.Serials()[r.value] == Fragment(hash)
  {
    var k := Catalogue.IndexOf(Catalogue.Serials(), Fragment(hash));
    if k == -1 then None else Some(k)
  }

  /** `loadImageFromHash`: a fragment naming a serial selects it, shows it
      and opens the modal; any other fragment leaves everything as it was. */
  function LoadFromHash(s: State): (r: State)
    ensures Fragment(s.hash) in Catalogue.Serials() ==>
      Displays(r) && Catalogue.Serials()[r.currentIndex] == Fragment(s.hash) && r.modalOpen && r.grid == s.grid
    ensures Fragment(s.hash) !in Catalogue.Serials() ==> r == s
  {
    match HashTarget(s.hash)
    case None => s
    case Some(k) => OpenModal(ShowImage(s.(currentIndex := k)))
  }

  /** The fragment written for an index leads back to that same index. */
  lemma FragmentNamesIndex(s: State)
    requires 0 <= s.currentIndex < Catalogue.Count
    ensures HashTarget(ShowImage(s).hash) == Some(s.currentIndex)
    ensures LoadFromHash(ShowImage(s)) == OpenModal(ShowImage(s))
  {
    Catalogue.IndexOfSerial(s.currentIndex);
    assert Fragment(ShowImage(s).hash) == Catalogue.Serials()[s.currentIndex];
  }

  /** Loading with `#vmk05` selects the fifth serial and opens the modal. */
  lemma HashSampleKnown(s: State)
    ensures LoadFromHash(s.(hash := "#vmk05")).currentIndex == 4
    ensures LoadFromHash(s.(hash := "#vmk05")).modalOpen
  {
    Catalogue.CatalogueSamples();
    Catalogue.IndexOfSerial(4);
    assert Fragment("#vmk05") == "vmk05";
  }

  /** Loading with `#zzz` changes nothing. */
  lemma HashSampleUnknown(s: State)
    ensures LoadFromHash(s.(hash := "#zzz")) == s.(hash := "#zzz")
  {
    assert Fragment("#zzz") == "zzz";
    if "zzz" in Catalogue.Serials() {
      var i :| 0 <= i < Catalogue.Count && Catalogue.Serials()[i] == "zzz";
      Catalogue.SerialNumberAt(i);
      assert false;
    }
  }

  datatype Key = ArrowLeft | ArrowRight | Enter | Space | OtherKey

  /** The document's `keydown` handler: arrows navigate, and only while the
      modal is shown. */
  function OnDocumentKey(s: State, key: Key): (r: State)
    ensures !s.modalOpen ==> r == s
    ensures !(key.ArrowLeft? || key.ArrowRight?) ==> r == s
    ensures s.modalOpen && key.ArrowLeft? ==> r == Prev(s)
    ensures s.modalOpen && key.ArrowRight? ==> r == Next(s)
  {
    if !s.modalOpen then s
    else match key
      case ArrowLeft => Prev(s)
      case ArrowRight => Next(s)
      case _ => s
  }

  /** While the modal is shown, ArrowRight then ArrowLeft (or the other
      way round) comes back to the serial shown before. */
  lemma ArrowKeysUndo(s: State)
    requires 0 <= s.currentIndex < Catalogue.Count && s.modalOpen
    ensures OnDocumentKey(OnDocumentKey(s, ArrowRight), ArrowLeft) == ShowImage(s)
    ensures OnDocumentKey(OnDocumentKey(s, ArrowLeft), ArrowRight) == ShowImage(s)
  {
    PrevNextInverse(s);
  }

  /** The `keydown` handler of the thumbnail at grid position `pos`, then
      the document's as the event bubbles: Enter or space selects the
      thumbnail's `data-index` in the full catalogue, shows it and opens the
      modal. */
  function OnThumbKey(s: State, pos: nat, key: Key): (r: State)
    requires pos < |s.grid|
    ensures key.Enter? || key.Space? ==>
      && r.currentIndex == s.grid[pos].index && r.modalOpen && r.grid == s.grid
      && r.hash == "#" + SerialAt(s.grid[pos].index) && r.modalSerial == SerialAt(s.grid[pos].index)
    ensures !(key.Enter? || key.Space?) ==> r == OnDocumentKey(s, key)
  {
    var selected :=
      if key.Enter? || key.Space? then OpenModal(ShowImage(s.(currentIndex := s.grid[pos].index)))
      else s;
    OnDocumentKey(selected, key)
  }

  /** A click on the thumbnail image at grid position `pos`: the modal
      opens with that image as the opening element. */
  function OnThumbClick(s: State, pos: nat): (r: State)
    requires pos < |s.grid|
    ensures r.currentIndex == s.grid[pos].index && r.modalOpen && r.grid == s.grid
    ensures r.hash == "#" + SerialAt(s.grid[pos].index) && r.modalSerial == SerialAt(s.grid[pos].index)
  {
    OnModalShow(s, Some(s.grid[pos].index))
  }

  datatype Direction = Backward | Forward

  const SwipeThreshold: int := 50

  /** `handleSwipeGesture`: a horizontal swipe longer than the threshold
      goes forward when leftward and backward when rightward. */
  function SwipeDirection(startX: int, endX: int): (d: Option<Direction>)
    ensures d.None? <==> -SwipeThreshold <= endX - startX <= SwipeThreshold
    ensures d == Some(Forward) <==> endX - startX < -SwipeThreshold
    ensures d == Some(Backward) <==> endX - startX > SwipeThreshold
  {
    var distance := endX - startX;
    if (if distance < 0 then -distance else distance) > SwipeThreshold then
      if distance < 0 then Some(Forward) else Some(Backward)
    else None
  }

  /** Swiping back along the same path recognises the opposite direction. */
  lemma SwipeReversed(startX: int, endX: int)
    ensures SwipeDirection(startX, endX) == Some(Forward) <==> SwipeDirection(endX, startX) == Some(Backward)
    ensures SwipeDirection(startX, endX).None? <==> SwipeDirection(endX, startX).None?
  {
  }

  /** The `touchend` handler on the modal image. */
  function OnSwipe(s: State, startX: int, endX: int): (r: State)
    ensures endX - startX < -SwipeThreshold ==> r == Next(s)
    ensures endX - startX > SwipeThreshold ==> r == Prev(s)
    ensures -SwipeThreshold <= endX - startX <= SwipeThreshold ==> r == s
  {
    match SwipeDirection(startX, endX)
    case None => s
    case Some(Forward) => Next(s)
    case Some(Backward) => Prev(s)
  }

  /** A swipe followed by the same swipe in reverse comes back to the
      serial it started from; a short swipe changes nothing. */
  lemma SwipeBackRestores(s: State, startX: int, endX: int)
    requires 0 <= s.currentIndex < Catalogue.Count
    ensures OnSwipe(OnSwipe(s, startX, endX), endX, startX).currentIndex == s.currentIndex
    ensures SwipeDirection(startX, endX).None? ==> OnSwipe(s, startX, endX) == s
  {
    SwipeReversed(startX, endX);
    if SwipeDirection(startX, endX) == Some(Forward) {
      PrevNextInverse(s);
    } else if SwipeDirection(startX, endX) == Some(Backward) {
      PrevNextInverse(s);
    }
  }

  /** The search box's `input` handler: the grid is rebuilt from the
      filtered serials at the current viewport width; the selection is left
      alone. */
  function OnSearch(s: State, term: string, width: int): (r: State)
    ensures r.currentIndex == s.currentIndex && r.hash == s.hash
    ensures r.modalSerial == s.modalSerial && r.modalOpen == s.modalOpen
    ensures |r.grid| <= Catalogue.Count
    ensures forall k :: 0 <= k < |r.grid| ==>
      r.grid[k].index == k && r.grid[k].serial in Catalogue.Serials() && Text.Includes(r.grid[k].serial, Text.Lower(term))
    ensures forall x :: x in Catalogue.Serials() && Text.Includes(x, Text.Lower(term)) ==>
      exists k :: 0 <= k < |r.grid| && r.grid[k].serial == x
    ensures r.grid == Layout.Render(Catalogue.Search(term), width)
  {
    s.(grid := Layout.Render(Catalogue.Search(term), width))
  }

  /** Page load: the full catalogue is rendered, then the fragment is read.
      A fragment naming a serial opens the modal on it; any other leaves
      the first serial selected and the modal closed. */
  function Init(hash: string, width: int): (r: State)
    ensures |r.grid| == Catalogue.Count
    ensures Fragment(hash) in Catalogue.Serials() ==>
      r.modalOpen && Displays(r) && Catalogue.Serials()[r.currentIndex] == Fragment(hash)
    ensures Fragment(hash) !in Catalogue.Serials() ==>
      !r.modalOpen && r.currentIndex == 0 && r.hash == hash
    ensures r.grid == Layout.Render(Catalogue.Serials(), width)
  {
    LoadFromHash(State(0, hash, "", false, Layout.Render(Catalogue.Serials(), width)))
  }

  datatype Event =
    | PrevClick
    | NextClick
    | ThumbClick(pos: nat)
    | ThumbKey(pos: nat, key: Key)
    | DocumentKey(key: Key)
    | ModalHidden
    | SearchInput(term: string, width: int)
    | Swipe(startX: int, endX: int)

  /** One event. A thumbnail event for a position the grid does not have
      cannot occur and leaves the state alone. */
  function Step(s: State, e: Event): (r: State)
    ensures !e.SearchInput? ==> r.grid == s.grid
    ensures e.ModalHidden? ==> !r.modalOpen && r.hash == ""
    ensures e.ThumbClick? && e.pos < |s.grid| ==> r.modalOpen && r.currentIndex == s.grid[e.pos].index
    ensures (e.ThumbClick? || e.ThumbKey?) && e.pos >= |s.grid| ==> r == s
  {
    match e
    case PrevClick => Prev(s)
    case NextClick => Next(s)
    case ThumbClick(pos) => if pos < |s.grid| then OnThumbClick(s, pos) else s
    case ThumbKey(pos, key) => if pos < |s.grid| then OnThumbKey(s, pos, key) else s
    case DocumentKey(key) => OnDocumentKey(s, key)
    case ModalHidden => OnModalHidden(s)
    case SearchInput(term, width) => OnSearch(s, term, width)
    case Swipe(startX, endX) => OnSwipe(s, startX, endX)
  }

  /** The events in order, each on the state the previous one left. */
  function Run(s: State, events: seq<Event>): (r: State)
    ensures |events| == 0 ==> r == s
    ensures (forall i :: 0 <= i < |events| ==> !events[i].SearchInput?) ==> r.grid == s.grid
    ensures |events| > 0 && events[|events| - 1].ModalHidden? ==> !r.modalOpen && r.hash == ""
    decreases |events|
  {
    if |events| == 0 then s
    else
      assert forall i :: 0 <= i < |events| - 1 ==> events[1..][i] == events[i + 1];
      Run(Step(s, events[0]), events[1..])
  }

  /** What every reachable state satisfies: the index is a catalogue
      position, every thumbnail's `data-index` is its grid position, and
      while the modal is shown it displays the current serial. */
  predicate Inv(s: State) {
    && 0 <= s.currentIndex < Catalogue.Count
    && |s.grid| <= Catalogue.Count
    && (forall k :: 0 <= k < |s.grid| ==> s.grid[k].index == k)
    && (s.modalOpen ==> Displays(s))
  }

  lemma InitInv(hash: string, width: int)
    ensures Inv(Init(hash, width))
  {
  }

  lemma StepInv(s: State, e: Event)
    requires Inv(s)
    ensures Inv(Step(s, e))
  {
    match e
    case ThumbClick(pos) =>
      if pos < |s.grid| {
        assert s.grid[pos].index == pos;
      }
    case ThumbKey(pos, key) =>
      if pos < |s.grid| {
        assert s.grid[pos].index == pos;
      }
    case _ =>
  }

  lemma {:induction false} RunInv(s: State, events: seq<Event>)
    requires Inv(s)
    ensures Inv(Run(s, events))
    decreases |events|
  {
    if |events| > 0 {
      StepInv(s, events[0]);
      RunInv(Step(s, events[0]), events[1..]);
    }
  }

  /** Activating a thumbnail, by click or by Enter/space, selects its grid
      position in the full catalogue: the serial shown is the catalogue's at
      that position, whichever search produced the grid. */
  lemma ThumbnailSelectsCataloguePosition(s: State, pos: nat, key: Key)
    requires Inv(s) && pos < |s.grid|
    requires key.Enter? || key.Space?
    ensures var r := Step(s, ThumbClick(pos));
      r.currentIndex == pos && r.modalOpen && Displays(r)
    ensures var r := Step(s, ThumbKey(pos, key));
      r.currentIndex == pos && r.modalOpen && Displays(r)
  {
  }

  lemma FirstSerialFragment()
    ensures Catalogue.Serials()[0] == "vmk01" && "#" + Catalogue.Serials()[0] == "#vmk01"
  {
    Catalogue.CatalogueSamples();
    HashOfFirst(Catalogue.Serials()[0]);
  }

  lemma HashOfFirst(first: string)
    requires first == "vmk01"
    ensures "#" + first == "#vmk01"
  {
  }

  /** The position a thumbnail carries is its place in the filtered grid,
      but it is looked up in the full catalogue: after searching for "10"
      the first thumbnail previews `vmk10`, and activating it shows `vmk01`. */
  lemma FilteredThumbnailShowsCatalogueEntry(s: State, term: string, width: int)
    requires term == "10"
    ensures |OnSearch(s, term, width).grid| >= 1
    ensures OnSearch(s, term, width).grid[0].serial == "vmk10"
    ensures Step(OnSearch(s, term, width), ThumbClick(0)).hash == "#vmk01"
    ensures Step(OnSearch(s, term, width), ThumbClick(0)).modalSerial == "vmk01"
  {
    Catalogue.SearchTenFirst();
    var t := OnSearch(s, term, width);
    assert t.grid[0].index == 0;
    assert Step(t, ThumbClick(0)) == OnThumbClick(t, 0);
    FirstSerialFragment();
  }
}
