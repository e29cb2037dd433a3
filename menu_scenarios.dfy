/**
  Client scenarios: what a caller can conclude about a menu from the contracts of
  `PopupMenus` alone, without looking at any method body.
 */
module MenuScenarios {
  import opened PopupMenus

  /** On a five-entry menu, the entry chosen at index 2 stays the chosen entry while the
      check marks of other entries change. */
  method ChosenItemSurvivesChecks(menu: PopupMenu)
    requires menu.Valid() && menu.NItems() == 5
    modifies menu`chosenIdx, menu.items`flags
  {
    var third := menu.items[2];
    menu.SetChosenItemIdx(2);
    assert menu.GetChosenItem() == third;
    var found := menu.CheckItem(0, true);
    assert found && menu.IsItemChecked(0);
    var missing := menu.CheckItem(7, true);
    assert !missing;
    found := menu.CheckItem(4, false);
    assert menu.GetChosenItem() == third && !menu.IsItemChecked(4);
  }

  /** After checking entry 3 alone, it is the only checked entry; the tree and the chosen
      entry stay, because only flags change. */
  method CheckAloneKeepsChoice(menu: PopupMenu)
    requires menu.Valid() && menu.NItems() == 5 && menu.GetChosenItemIdx() == 2
    modifies menu.items`flags
  {
    var chosen := menu.GetChosenItem();
    menu.CheckItemAlone(3);
    assert menu.Valid() && menu.GetChosenItem() == chosen;
    assert !menu.IsItemChecked(0) && !menu.IsItemChecked(2) && menu.IsItemChecked(3);
  }

  /** Entries are counted as they are added and released by Clear; the chosen index stays. */
  method CountAndClear(menu: PopupMenu)
    requires menu.Valid() && menu.NItems() == 0
    modifies menu`items, menu`Menus, menu`Entries, menu`chosenIdx
  {
    var a := menu.AddTextItem("a");
    var s := menu.AddSeparator(0);
    assert menu.items == [s, a] && menu.NItems() == 2;
    assert menu.GetItemText(0) == "" && menu.GetItemText(1) == "a" && menu.GetItemText(2) == "";
    menu.SetChosenItemIdx(1);
    menu.Clear();
    assert menu.NItems() == 0 && menu.GetChosenItemIdx() == 1 && menu.GetChosenItem() == null;
  }

  /** A parent's callback reaches a submenu attached after it was installed. */
  method CallbackReachesNewSubmenu(parent: PopupMenu, sub: PopupMenu, f: PopupFunction)
    requires parent.Valid() && !sub.owned && parent.Detached(sub) && sub.func.None?
    modifies parent`items, parent`Menus, parent`Entries, parent`func, sub`func, sub`owned
  {
    parent.SetFunction(Some(f));
    var item := parent.AddSubmenuItem("sub", -1, sub);
    assert sub.GetFunction() == Some(f) && parent.GetFunction() == Some(f);
    assert parent.GetItem(parent.NItems() - 1) == item && item.submenu == sub;
  }

  /** Installing a callback later does not reach a submenu attached before. */
  method CallbackNotRetroactive(parent: PopupMenu, sub: PopupMenu, f: PopupFunction)
    requires parent.Valid() && !sub.owned && parent.Detached(sub) && sub.func.None? && parent.func.None?
    modifies parent`items, parent`Menus, parent`Entries, parent`func, sub`func, sub`owned
  {
    var item := parent.AddSubmenuItem("sub", -1, sub);
    assert sub.GetFunction() == None;
    parent.SetFunction(Some(f));
    assert sub.GetFunction() == None;
  }

  /** An adopted item stays marked as owned after `Clear` releases it, so no menu, this one
      included, can adopt it again. */
  method AdoptOnlyOnce(menu: PopupMenu, it: Item)
    requires menu.Valid() && !it.owned && it !in menu.Entries && it.submenu == null
    modifies menu`items, menu`Menus, menu`Entries, it`owned
  {
    var r := menu.AddItem(it);
    assert menu.GetItem(menu.NItems() - 1) == it;
    menu.Clear();
    assert it.owned && menu.NItems() == 0;
  }

  /** A submenu changed through its own pointer after it was attached leaves the parent's
      footprint stale; the parent can still be cleared, which makes it a valid tree again. */
  method ClearAfterSubmenuGrows(parent: PopupMenu, sub: PopupMenu)
    requires parent.Valid() && !sub.owned && parent.Detached(sub) && sub.func.None?
    modifies parent`items, parent`Menus, parent`Entries, sub`items, sub`Menus, sub`Entries, sub`func, sub`owned
  {
    var holder := parent.AddSubmenuItem("sub", -1, sub);
    assert parent !in sub.Menus;
    var x := sub.AddTextItem("x");
    parent.Clear();
    assert parent.Valid() && parent.NItems() == 0;
  }

  /** Invoking the callback with entry 1 chosen records exactly one call with that entry. */
  method ExecRecordsChoice(menu: PopupMenu, f: PopupFunction)
    requires menu.Valid() && menu.NItems() == 3 && menu.Calls == []
    modifies menu`func, menu`chosenIdx, menu`Calls
  {
    menu.SetFunction(Some(f));
    menu.SetChosenItemIdx(1);
    menu.ExecFunction();
    assert menu.Calls == [Invocation(f, 1, menu.items[1])];
  }
}
