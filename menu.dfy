/**
 * The text menu of the ssd1306 library (SAppMenu): a list of items, the
 * selected item, the item selected at the last redraw and the first item
 * shown (the scroll position). Every counter is a `uint8_t`, so the model
 * keeps them in 0..255 and writes the byte truncations out.
 *
 * Drawing is abstracted into a log of drawing operations: the frame, an
 * item (inverted when it is the selected one) and a screen clear; the
 * pixels themselves belong to the display drivers.
 */
module Menu {
  import opened Arith


  /**
   * getMaxScreenItems: the item rows between the frame lines, as a byte;
   * a display lower than 16 pixels wraps round to 254 or 255.
   */
  function MaxScreenItems(displayHeight: nat): (m: nat)
    requires displayHeight < 256
    ensures m < 256
    ensures displayHeight >= 16 ==> m == displayHeight / 8 - 2
    ensures displayHeight < 16 ==> m >= 254
  {
    ToByte(displayHeight / 8 - 2)
  }

  /**
   * calculateScrollPosition: the smallest move of the window of `max` rows
   * that brings `selection` into it.
   */
  function ScrollPosition(scroll: nat, selection: nat, max: nat): (r: nat)
    requires scroll < 256 && selection < 256 && max < 256
    ensures r < 256
    ensures 1 <= max ==> r <= selection && selection - r <= max - 1
    ensures 1 <= max && scroll <= selection <= scroll + max - 1 ==> r == scroll
    ensures 1 <= max ==> r == scroll || r == selection || r == selection - max + 1
  {
    if selection < scroll then selection
    else if selection - scroll > max - 1 then ToByte(selection - max + 1)
    else scroll
  }

  /** The selected item after menuDown: the next one, or the first after the last. */
  function Down(selection: nat, count: nat): (s: nat)
    requires selection < 256 && count < 256
    ensures s < 256
    ensures 1 <= count && selection < count ==> s < count
  {
    if selection < count - 1 then selection + 1 else 0
  }

  /** The selected item after menuUp: the previous one, or the last after the first. */
  function Up(selection: nat, count: nat): (s: nat)
    requires selection < 256 && count < 256
    ensures s < 256
    ensures 1 <= count && selection < count ==> s < count
    ensures count == 0 && selection == 0 ==> s == 255
  {
    if selection > 0 then selection - 1 else ToByte(count - 1)
  }

  /** For a non-empty menu, moving down and up again returns to the same item, and the other way round. */
  lemma UpDownInverse(selection: nat, count: nat)
    requires 1 <= count < 256 && selection < count
    ensures Up(Down(selection, count), count) == selection
    ensures Down(Up(selection, count), count) == selection
  {
  }

  /** One call of a drawing routine. */
  datatype DrawOp = Frame | Item(index: nat, inverted: bool) | Clear

  /** The items lo..hi-1 in order, the selected one inverted. */
  function ItemRun(lo: nat, hi: nat, selection: nat): (ops: seq<DrawOp>)
    ensures |ops| == if lo < hi then hi - lo else 0
    decreases hi
  {
    if hi <= lo then [] else ItemRun(lo, hi - 1, selection) + [Item(hi - 1, hi - 1 == selection)]
  }

  /** ItemRun draws item i at position i - lo, inverted exactly when i is the selection. */
  lemma {:induction false} ItemRunAt(lo: nat, hi: nat, selection: nat, i: nat)
    requires lo <= i < hi
    ensures ItemRun(lo, hi, selection)[i - lo] == Item(i, i == selection)
    decreases hi
  {
    if i < hi - 1 {
      ItemRunAt(lo, hi - 1, selection, i);
    }
  }

  class SAppMenu {
    var items: seq<string>
    var count: nat
    var selection: nat
    var oldSelection: nat
    var scrollPosition: nat
    /** What the menu has drawn so far. */
    var screen: seq<DrawOp>

    /** Every field is a byte. */
    predicate Valid()
      reads this
    {
      count < 256 && selection < 256 && oldSelection < 256 && scrollPosition < 256
    }

    /** ssd1306_createMenu */
    constructor (menuItems: seq<string>, menuCount: nat)
      requires menuCount < 256
      ensures Valid()
      ensures items == menuItems && count == menuCount
      ensures selection == 0 && oldSelection == 0 && scrollPosition == 0
      ensures screen == []
    {
      items := menuItems;
      count := menuCount;
      selection := 0;
      oldSelection := 0;
      scrollPosition := 0;
      screen := [];
    }

    /** ssd1306_menuSelection */
    function MenuSelection(): (s: nat)
      reads this
      requires Valid()
      ensures s == selection && s < 256
    {
      selection
    }

    /** ssd1306_menuDown */
    method MenuDown()
      requires Valid()
      modifies this
      ensures Valid()
      ensures selection == Down(old(selection), count)
      ensures items == old(items) && count == old(count) && oldSelection == old(oldSelection)
      ensures scrollPosition == old(scrollPosition) && screen == old(screen)
    {
      if selection < count - 1 {
        selection := selection + 1;
      } else {
        selection := 0;
      }
    }

    /** ssd1306_menuUp */
    method MenuUp()
      requires Valid()
      modifies this
      ensures Valid()
      ensures selection == Up(old(selection), count)
      ensures items == old(items) && count == old(count) && oldSelection == old(oldSelection)
      ensures scrollPosition == old(scrollPosition) && screen == old(screen)
    {
      if selection > 0 {
        selection := selection - 1;
      } else {
        selection := ToByte(count - 1);
      }
    }

    /**
     * ssd1306_showMenu: the frame, then the items of the scrolled window
     * that exist, then the redraw is recorded as done.
     */
    method ShowMenu(displayHeight: nat)
      requires Valid() && displayHeight < 256
      modifies this
      ensures Valid()
      ensures scrollPosition == ScrollPosition(old(scrollPosition), selection, MaxScreenItems(displayHeight))
      ensures screen == old(screen) + [Frame] +
        ItemRun(scrollPosition, Min(count, scrollPosition + MaxScreenItems(displayHeight)), selection)
      ensures oldSelection == selection
      ensures items == old(items) && count == old(count) && selection == old(selection)
    {
      var max := MaxScreenItems(displayHeight);
      screen := screen + [Frame];
      scrollPosition := ScrollPosition(scrollPosition, selection, max);
      var i := scrollPosition;
      ghost var start := screen;
      ghost var scroll := scrollPosition;
      while i < Min(count, scrollPosition + max)
        invariant scrollPosition == scroll && Valid()
        invariant items == old(items) && count == old(count) && selection == old(selection)
        invariant scrollPosition <= i < 256
        invariant i <= Min(count, scrollPosition + max) || i == scrollPosition
        invariant screen == start + ItemRun(scrollPosition, i, selection)
      {
        screen := screen + [Item(i, i == selection)];
        i := i + 1;
      }
      oldSelection := selection;
    }

    /**
     * ssd1306_updateMenu: nothing when the selection has not moved; a clear
     * and a full redraw when the window has to scroll; otherwise the old
     * and the new selected item are redrawn.
     */
    method UpdateMenu(displayHeight: nat)
      requires Valid() && displayHeight < 256
      modifies this
      ensures Valid()
      ensures oldSelection == selection
      ensures items == old(items) && count == old(count) && selection == old(selection)
      ensures old(selection) == old(oldSelection) ==>
        scrollPosition == old(scrollPosition) && screen == old(screen)
      ensures old(selection) != old(oldSelection) ==>
        scrollPosition == ScrollPosition(old(scrollPosition), selection, MaxScreenItems(displayHeight))
      ensures old(selection) != old(oldSelection) && scrollPosition == old(scrollPosition) ==>
        screen == old(screen) + [Item(old(oldSelection), false), Item(selection, true)]
      ensures old(selection) != old(oldSelection) && scrollPosition != old(scrollPosition) ==>
        screen == old(screen) + [Clear, Frame] +
          ItemRun(scrollPosition, Min(count, scrollPosition + MaxScreenItems(displayHeight)), selection)
    {
      if selection != oldSelection {
        var scroll := ScrollPosition(scrollPosition, selection, MaxScreenItems(displayHeight));
        if scroll != scrollPosition {
          screen := screen + [Clear];
          ShowMenu(displayHeight);
        } else {
          screen := screen + [Item(oldSelection, oldSelection == selection), Item(selection, true)];
          oldSelection := selection;
        }
      }
    }
  }

  /**
   * After a redraw of a non-empty menu on a display with room for at least
   * one item, the selected item is among the items drawn, and it is drawn
   * inverted.
   */
  lemma SelectionShown(scroll: nat, selection: nat, count: nat, displayHeight: nat)
    requires scroll < 256 && selection < count < 256 && displayHeight < 256
    requires 1 <= MaxScreenItems(displayHeight)
    ensures var max := MaxScreenItems(displayHeight);
            var r := ScrollPosition(scroll, selection, max);
            Item(selection, true) in ItemRun(r, Min(count, r + max), selection)
  {
    var max := MaxScreenItems(displayHeight);
    var r := ScrollPosition(scroll, selection, max);
    ItemRunAt(r, Min(count, r + max), selection, selection);
  }
}
