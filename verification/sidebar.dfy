/**
 * `findActiveIndex` and `rotateSidebar`: move the sidebar selection one item
 * up or down, wrapping around at both ends.
 */
module Sidebar {
  import opened Wrappers

  /** One sidebar entry: its identity, whether it carries an `href`, and the
      rootlist link inside it, if any. */
  datatype SidebarItem = SidebarItem(id: nat, hasHref: bool, rootlistLink: Option<nat>)

  /** `findActiveIndex`: no active element (-1 in the source), its position,
      or an active element that is not in the list (the source falls off the
      end of the loop and returns `undefined`). */
  datatype ActiveIndex = NoActive | At(index: nat) | NotListed

  function FindActiveIndex(items: seq<SidebarItem>, active: Option<nat>): (r: ActiveIndex)
    ensures r.NoActive? <==> active.None?
    ensures r.At? ==> r.index < |items| && items[r.index].id == active.value
                      && forall j :: 0 <= j < r.index ==> items[j].id != active.value
    ensures r.NotListed? ==> active.Some? && forall j :: 0 <= j < |items| ==> items[j].id != active.value
    decreases |items|
  {
    if active.None? then NoActive
    else if items == [] then NotListed
    else if items[0].id == active.value then At(0)
    else
      var rest := FindActiveIndex(items[1..], active);
      if rest.At? then At(rest.index + 1) else rest
  }

  /** The numeric value the source adds the direction to. */
  function Offset(a: ActiveIndex): int
    requires !a.NotListed?
  {
    match a
    case NoActive => -1
    case At(i) => i
  }

  /** `index = current + direction`, sent to the other end when it leaves [0, maxIndex]. */
  function WrapIndex(current: int, direction: int, count: nat): (r: int)
    ensures count > 0 ==> 0 <= r < count
    ensures 0 <= current + direction < count ==> r == current + direction
  {
    var maxIndex := count - 1;
    var index := current + direction;
    if index < 0 then maxIndex
    else if index > maxIndex then 0
    else index
  }

  /** Both ends wrap, and with no active item the first step picks an end. */
  lemma WrapEnds(count: nat)
    requires count > 0
    ensures WrapIndex(count - 1, 1, count) == 0
    ensures WrapIndex(0, -1, count) == count - 1
    ensures WrapIndex(-1, 1, count) == 0
    ensures WrapIndex(-1, -1, count) == count - 1
  {
  }

  /** From a listed item a single step is rotation modulo the list length. */
  lemma WrapIsModular(current: nat, direction: int, count: nat)
    requires current < count
    requires direction == 1 || direction == -1
    ensures WrapIndex(current, direction, count) == (current + direction) % count
  {
    if current + direction == count {
      assert (current + direction) % count == 0;
    } else if current + direction == -1 {
      assert -1 == (-1) * count + (count - 1);
    }
  }

  /** Why rotation can fail: the source throws a `TypeError` in each case. */
  datatype SidebarError =
    | ActiveNotListed   // index is NaN, so `allItems[index]` is undefined
    | NoItems           // the list is empty, so `allItems[index]` is undefined
    | NoLinkInside      // `querySelector` found no rootlist link, so `null.click()`

  datatype Rotation = Clicks(id: nat) | Throws(error: SidebarError)

  /** `rotateSidebar`: what is clicked, or why it throws. */
  function RotateSidebar(items: seq<SidebarItem>, active: Option<nat>, direction: int): (r: Rotation)
    ensures FindActiveIndex(items, active).NotListed? ==> r == Throws(ActiveNotListed)
    ensures !FindActiveIndex(items, active).NotListed? && items == [] ==> r == Throws(NoItems)
    ensures !FindActiveIndex(items, active).NotListed? && items != [] ==>
              var item := items[WrapIndex(Offset(FindActiveIndex(items, active)), direction, |items|)];
              && (item.hasHref ==> r == Clicks(item.id))
              && (!item.hasHref && item.rootlistLink.Some? ==> r == Clicks(item.rootlistLink.value))
              && (!item.hasHref && item.rootlistLink.None? ==> r == Throws(NoLinkInside))
  {
    var a := FindActiveIndex(items, active);
    if a.NotListed? then Throws(ActiveNotListed)
    else
      var index := WrapIndex(Offset(a), direction, |items|);
      if !(0 <= index < |items|) then Throws(NoItems)
      else
        var toClick := items[index];
        if toClick.hasHref then Clicks(toClick.id)
        else
          match toClick.rootlistLink
          case Some(link) => Clicks(link)
          case None => Throws(NoLinkInside)
  }

  /** Stepping down from the last item selects the first, stepping up from
      the first selects the last. */
  lemma RotateWrapsAround(items: seq<SidebarItem>, active: Option<nat>)
    requires items != [] && forall j :: 0 <= j < |items| ==> items[j].hasHref
    requires active == Some(items[|items| - 1].id)
    requires forall j :: 0 <= j < |items| - 1 ==> items[j].id != active.value
    ensures RotateSidebar(items, active, 1) == Clicks(items[0].id)
    ensures RotateSidebar(items, Some(items[0].id), -1) == Clicks(items[|items| - 1].id)
  {
    assert FindActiveIndex(items, active) == At(|items| - 1);
    assert FindActiveIndex(items, Some(items[0].id)) == At(0);
  }
}
