/**
  The in-memory model behind a popup or context menu: an ordered list of
  owned entries (plain, checkable, title, separator or submenu holder), a
  prefix-rendering hint, a multi-check hint, the index the host reports as
  chosen, and an optional selection callback that is copied down to a
  submenu when the submenu is attached.

  Ownership is a tree: every menu owns the items of its list and an item owns
  the submenu it holds. The ghost sets `Menus` and `Entries` of a menu are
  the footprint of the subtree it owns, and `Valid()` is the tree invariant
  over them. Ownership passes at most once: each item and each menu carries a
  ghost mark `owned`, set when a menu adopts it and never cleared (a released
  item is gone), and adopting demands that the mark is not yet set.
 */
module PopupMenus {

  datatype Option<T> = None | Some(value: T)

  /** A registered selection callback, kept opaque: only its identity matters. */
  datatype PopupFunction = PopupFunction(id: nat)

  /** One invocation of a selection callback: the callback, the chosen index and the chosen item. */
  datatype Invocation = Invocation(callback: PopupFunction, index: int, item: Item?)

  // The item flag bits, as the bit pattern of iPlug2's `int` flags.
  const NoFlags: bv32 := 0
  const Disabled: bv32 := 1
  const Title: bv32 := 2
  const Checked: bv32 := 4
  const Separator: bv32 := 8

  /** The list `s` with `x` inserted at position `index`; later elements shift right by one. */
  function InsertAt<T>(s: seq<T>, index: int, x: T): (r: seq<T>)
    requires 0 <= index <= |s|
    ensures |r| == |s| + 1
    ensures r[index] == x
    ensures forall k :: 0 <= k < index ==> r[k] == s[k]
    ensures forall k :: index <= k < |s| ==> r[k + 1] == s[k]
    ensures multiset(r) == multiset(s) + multiset{x}
  {
    assert s == s[..index] + s[index..];
    s[..index] + [x] + s[index..]
  }

  /** No element occurs twice in `s`. */
  predicate Distinct<T(==)>(s: seq<T>)
  {
    forall i, j :: 0 <= i < j < |s| ==> s[i] != s[j]
  }

  /** Inserting an element that is not yet in a list without repetitions keeps it without repetitions. */
  lemma InsertAtDistinct<T>(s: seq<T>, index: int, x: T)
    requires 0 <= index <= |s|
    requires Distinct(s) && x !in s
    ensures Distinct(InsertAt(s, index, x))
  {
  }

  /** One entry of a menu. */
  class Item {
    var text: string
    var flags: bv32
    const tag: int
    /** The submenu this item owns, if any; only the constructors set it. */
    const submenu: PopupMenu?
    /** Set once a menu has taken ownership of this item. */
    ghost var owned: bool

    /** A plain entry with the given text, flags and tag. */
    constructor (str: string, itemFlags: bv32 := NoFlags, itemTag: int := -1)
      ensures text == str && flags == itemFlags && tag == itemTag && submenu == null
      ensures !owned
    {
      text := str;
      flags := itemFlags;
      tag := itemTag;
      submenu := null;
      owned := false;
    }

    /** An entry holding `sub`: no flags and the unset tag. */
    constructor WithSubmenu(str: string, sub: PopupMenu)
      ensures text == str && flags == NoFlags && tag == -1 && submenu == sub
      ensures !owned
    {
      text := str;
      flags := NoFlags;
      tag := -1;
      submenu := sub;
      owned := false;
    }

    method SetText(str: string)
      modifies this`text
      ensures text == str
    {
      text := str;
    }

    predicate GetEnabled()
      reads this`flags
    {
      flags & Disabled == 0
    }

    predicate GetChecked()
      reads this`flags
    {
      flags & Checked != 0
    }

    predicate GetIsTitle()
      reads this`flags
    {
      flags & Title != 0
    }

    predicate GetIsSeparator()
      reads this`flags
    {
      flags & Separator != 0
    }

    /** Sets or clears the checked bit and leaves every other bit as it was. */
    method SetChecked(state: bool)
      modifies this`flags
      ensures GetChecked() == state
      ensures flags & !Checked == old(flags) & !Checked
      ensures GetEnabled() == old(GetEnabled())
      ensures GetIsTitle() == old(GetIsTitle())
      ensures GetIsSeparator() == old(GetIsSeparator())
    {
      if state {
        flags := flags | Checked;
      } else {
        flags := flags & !Checked;
      }
    }
  }

  /** A popup menu: its owned entries and its selection and configuration state. */
  class PopupMenu {
    var items: seq<Item>
    var chosenIdx: int
    var prefix: int
    var multiCheck: bool
    var func: Option<PopupFunction>

    /** This menu and every menu owned, directly or through submenus, below it. */
    ghost var Menus: set<PopupMenu>
    /** Every item owned by this menu or by a menu below it. */
    ghost var Entries: set<Item>
    /** The invocations of the selection callback made through this menu, oldest first. */
    ghost var Calls: seq<Invocation>
    /** Set once an item has taken ownership of this menu as its submenu. */
    ghost var owned: bool

    /** The ownership tree rooted at this menu. */
    ghost predicate Valid()
      reads this`items, this`Menus, this`Entries, Menus`items, Menus`Menus, Menus`Entries
    {
      OwnsTree(items, Menus, Entries)
    }

    /** This menu, holding `list` with footprint `menus` and `entries`, is the root of a tree:
        the items of `list` are distinct and owned here, every submenu is a valid tree of its
        own inside the footprint that contains neither this menu nor any item of `list`, and
        no two submenus share a menu or an item. Only the menus below are read, so changing
        this menu's own fields never disturbs it. */
    ghost predicate OwnsTree(list: seq<Item>, menus: set<PopupMenu>, entries: set<Item>)
      reads (menus - {this})`items, (menus - {this})`Menus, (menus - {this})`Entries
      decreases menus
    {
      && this in menus
      && Distinct(list)
      && (forall it :: it in list ==> it in entries)
      && (forall it :: it in list && it.submenu != null ==>
            && it.submenu != this
            && it.submenu in menus
            && it.submenu.Menus <= menus
            && this !in it.submenu.Menus
            && it.submenu.Entries <= entries
            && it.submenu.OwnsTree(it.submenu.items, it.submenu.Menus, it.submenu.Entries))
      && (forall it, other :: it in list && other in list && it.submenu != null ==>
            other !in it.submenu.Entries)
      && (forall a, b :: a in list && b in list && a != b && a.submenu != null && b.submenu != null ==>
            a.submenu.Menus !! b.submenu.Menus && a.submenu.Entries !! b.submenu.Entries)
    }

    /** `sub` is a valid tree that shares no menu and no item with this one. */
    ghost predicate Detached(sub: PopupMenu)
      reads this`Menus, this`Entries, sub`items, sub`Menus, sub`Entries, sub.Menus`items, sub.Menus`Menus, sub.Menus`Entries
    {
      sub.Valid() && sub.Menus !! Menus && sub.Entries !! Entries
    }

    constructor (initialPrefix: int := 0, multicheck: bool := false)
      ensures Valid()
      ensures items == [] && chosenIdx == -1 && prefix == initialPrefix && multiCheck == multicheck
      ensures func == None
      ensures Menus == {this} && Entries == {} && Calls == [] && !owned
    {
      items := [];
      chosenIdx := -1;
      prefix := initialPrefix;
      multiCheck := multicheck;
      func := None;
      Menus := {this};
      Entries := {};
      Calls := [];
      owned := false;
    }

    function NItems(): (n: int)
      reads this`items
    {
      |items|
    }

    function GetChosenItemIdx(): (idx: int)
      reads this`chosenIdx
    {
      chosenIdx
    }

    function GetFunction(): (f: Option<PopupFunction>)
      reads this`func
    {
      func
    }

    /** Bounds-checked lookup: the item at `index`, or null when there is none. */
    function GetItem(index: int): (r: Item?)
      reads this`items
      ensures r != null <==> 0 <= index < |items|
      ensures r != null ==> r == items[index]
    {
      if 0 <= index < |items| then items[index] else null
    }

    /** The item at the chosen index, or null when the index does not name one. */
    function GetChosenItem(): (r: Item?)
      reads this`items, this`chosenIdx
      ensures r == GetItem(chosenIdx)
      ensures r != null <==> 0 <= chosenIdx < |items|
      ensures r != null ==> r == items[chosenIdx]
    {
      GetItem(chosenIdx)
    }

    /** The text of the item at `index`, or the empty string when there is none. */
    function GetItemText(index: int): (r: string)
      reads this`items, items`text
      ensures 0 <= index < |items| ==> r == items[index].text
      ensures !(0 <= index < |items|) ==> r == ""
    {
      var item := GetItem(index);
      if item != null then item.text else ""
    }

    /** Whether there is an item at `index` and it carries the checked bit. */
    function IsItemChecked(index: int): (r: bool)
      reads this`items, items`flags
      ensures r <==> 0 <= index < |items| && items[index].GetChecked()
    {
      var item := GetItem(index);
      if item != null then item.GetChecked() else false
    }

    /** Inserts `pItem` at `index`, or appends it when `index` is -1, taking ownership of it
        and of its submenu; returns it for chaining. Neither may have been adopted before. */
    method AddItem(pItem: Item, index: int := -1) returns (r: Item)
      requires Valid()
      requires index == -1 || 0 <= index <= |items|
      requires !pItem.owned && pItem !in Entries
      requires pItem.submenu != null ==>
                 !pItem.submenu.owned && Detached(pItem.submenu) && pItem !in pItem.submenu.Entries
      modifies this`items, this`Menus, this`Entries, pItem`owned
      modifies if pItem.submenu == null then {} else {pItem.submenu}`owned
      ensures Valid()
      ensures r == pItem
      ensures pItem.owned && (pItem.submenu != null ==> pItem.submenu.owned)
      ensures NItems() == old(NItems()) + 1
      ensures index == -1 ==> items == old(items) + [pItem]
      ensures index != -1 ==> items == InsertAt(old(items), index, pItem)
      ensures pItem.submenu == null ==> Menus == old(Menus) && Entries == old(Entries) + {pItem}
      ensures pItem.submenu != null ==>
                Menus == old(Menus) + pItem.submenu.Menus &&
                Entries == old(Entries) + {pItem} + pItem.submenu.Entries
    {
      var at := if index == -1 then |items| else index;
      assert InsertAt(items, |items|, pItem) == items + [pItem];
      AdoptKeepsTree(pItem, at);
      items := InsertAt(items, at, pItem);
      Menus := Menus + BelowMenus(pItem);
      Entries := Entries + {pItem} + BelowEntries(pItem);
      pItem.owned := true;
      if pItem.submenu != null {
        pItem.submenu.owned := true;
      }
      r := pItem;
    }

    /** Inserting a detached item anywhere in the list, and taking its subtree into the
        footprint, gives a tree again. */
    lemma AdoptKeepsTree(pItem: Item, at: int)
      requires Valid()
      requires 0 <= at <= |items|
      requires pItem !in Entries
      requires pItem.submenu != null ==> Detached(pItem.submenu) && pItem !in pItem.submenu.Entries
      ensures OwnsTree(InsertAt(items, at, pItem), Menus + BelowMenus(pItem), Entries + {pItem} + BelowEntries(pItem))
    {
      var list := InsertAt(items, at, pItem);
      InsertAtDistinct(items, at, pItem);
      forall it | it in list
        ensures it == pItem || it in items
      {
        assert it in multiset(list);
      }
    }

    /** The menus owned through `it`'s submenu. */
    ghost function BelowMenus(it: Item): set<PopupMenu>
      reads if it.submenu == null then {} else {it.submenu}
    {
      if it.submenu == null then {} else it.submenu.Menus
    }

    /** The items owned through `it`'s submenu. */
    ghost function BelowEntries(it: Item): set<Item>
      reads if it.submenu == null then {} else {it.submenu}
    {
      if it.submenu == null then {} else it.submenu.Entries
    }

    /** Inserts a new entry with the given text and flags and the unset tag. */
    method AddTextItem(str: string, index: int := -1, itemFlags: bv32 := NoFlags) returns (r: Item)
      requires Valid()
      requires index == -1 || 0 <= index <= |items|
      modifies this`items, this`Menus, this`Entries
      ensures Valid()
      ensures fresh(r) && r.owned
      ensures r.text == str && r.flags == itemFlags && r.tag == -1 && r.submenu == null
      ensures index == -1 ==> items == old(items) + [r]
      ensures index != -1 ==> items == InsertAt(old(items), index, r)
      ensures Menus == old(Menus) && Entries == old(Entries) + {r}
    {
      var item := new Item(str, itemFlags);
      r := AddItem(item, index);
    }

    /** Inserts a new entry holding `sub`, which must not have a callback of its own;
        this menu's callback, if any, is copied to `sub`. */
    method AddSubmenuItem(str: string, index: int, sub: PopupMenu) returns (r: Item)
      requires Valid()
      requires index == -1 || 0 <= index <= |items|
      requires sub.func.None?
      requires !sub.owned && Detached(sub)
      modifies this`items, this`Menus, this`Entries, sub`func, sub`owned
      ensures Valid()
      ensures fresh(r) && r.owned && sub.owned
      ensures r.text == str && r.flags == NoFlags && r.tag == -1 && r.submenu == sub
      ensures index == -1 ==> items == old(items) + [r]
      ensures index != -1 ==> items == InsertAt(old(items), index, r)
      ensures func == old(func) && sub.func == func
      ensures Menus == old(Menus) + sub.Menus && Entries == old(Entries) + {r} + sub.Entries
    {
      if func.Some? {
        sub.func := func;
      }
      var item := new Item.WithSubmenu(str, sub);
      r := AddItem(item, index);
    }

    /** Appends a new entry holding `sub`, which must already have a callback;
        this menu's callback, if any, replaces it. */
    method AppendSubmenuItem(str: string, sub: PopupMenu) returns (r: Item)
      requires Valid()
      requires sub.func.Some?
      requires !sub.owned && Detached(sub)
      modifies this`items, this`Menus, this`Entries, sub`func, sub`owned
      ensures Valid()
      ensures fresh(r) && r.owned && sub.owned
      ensures r.text == str && r.flags == NoFlags && r.tag == -1 && r.submenu == sub
      ensures items == old(items) + [r]
      ensures func == old(func)
      ensures func.Some? ==> sub.func == func
      ensures func.None? ==> sub.func == old(sub.func)
      ensures Menus == old(Menus) + sub.Menus && Entries == old(Entries) + {r} + sub.Entries
    {
      if func.Some? {
        sub.func := func;
      }
      var item := new Item.WithSubmenu(str, sub);
      r := AddItem(item, -1);
    }

    /** Inserts a new separator: empty text, exactly the separator flag, the unset tag. */
    method AddSeparator(index: int := -1) returns (r: Item)
      requires Valid()
      requires index == -1 || 0 <= index <= |items|
      modifies this`items, this`Menus, this`Entries
      ensures Valid()
      ensures fresh(r) && r.owned
      ensures r.text == "" && r.flags == Separator && r.tag == -1 && r.submenu == null
      ensures r.GetIsSeparator() && r.GetEnabled() && !r.GetIsTitle() && !r.GetChecked()
      ensures index == -1 ==> items == old(items) + [r]
      ensures index != -1 ==> items == InsertAt(old(items), index, r)
      ensures Menus == old(Menus) && Entries == old(Entries) + {r}
    {
      var item := new Item("", Separator);
      r := AddItem(item, index);
    }

    method SetChosenItemIdx(index: int)
      modifies this`chosenIdx
      ensures GetChosenItemIdx() == index
    {
      chosenIdx := index;
    }

    /** The prefix is one of the four rendering modes: none, a bare number, or a number
        with one or two leading zeros. */
    ghost predicate PrefixInRange()
      reads this`prefix
    {
      0 <= prefix < 4
    }

    /** Accepts a prefix mode in [0, 3] and ignores anything else. */
    method SetPrefix(count: int)
      modifies this`prefix
      ensures 0 <= count < 4 ==> prefix == count
      ensures !(0 <= count < 4) ==> prefix == old(prefix)
      ensures old(PrefixInRange()) ==> PrefixInRange()
    {
      if 0 <= count < 4 {
        prefix := count;
      }
    }

    method SetMultiCheck(multicheck: bool)
      modifies this`multiCheck
      ensures multiCheck == multicheck
    {
      multiCheck := multicheck;
    }

    /** Releases every entry; the chosen index, prefix, multi-check hint and callback stay. */
    method Clear()
      modifies this`items, this`Menus, this`Entries
      ensures Valid()
      ensures items == [] && Menus == {this} && Entries == {}
      ensures chosenIdx == old(chosenIdx) && prefix == old(prefix)
      ensures multiCheck == old(multiCheck) && func == old(func)
    {
      items := [];
      Menus := {this};
      Entries := {};
    }

    /** Sets or clears the checked bit of the item at `index`; false, and nothing changed,
        when there is no such item. */
    method CheckItem(index: int, state: bool) returns (found: bool)
      requires Distinct(items)
      modifies (if 0 <= index < |items| then {items[index]} else {})`flags
      ensures found <==> 0 <= index < |items|
      ensures IsItemChecked(index) == (found && state)
      ensures found ==> items[index].flags & !Checked == old(items[index].flags) & !Checked
      ensures forall k :: 0 <= k < |items| && k != index ==> items[k].flags == old(items[k].flags)
    {
      var item := GetItem(index);
      if item != null {
        item.SetChecked(state);
        found := true;
      } else {
        found := false;
      }
    }

    /** Checks the item at `index` and unchecks every other item of this menu; with `index`
        out of range every item ends up unchecked. Submenus are not visited. Only flags
        change, so a valid tree stays valid. */
    method CheckItemAlone(index: int)
      requires Distinct(items)
      modifies items`flags
      ensures forall k :: 0 <= k < |items| ==> items[k].GetChecked() == (k == index)
      ensures forall k :: 0 <= k < |items| ==> items[k].flags & !Checked == old(items[k].flags) & !Checked
    {
      for i := 0 to |items|
        invariant items == old(items)
        invariant forall k :: 0 <= k < i ==> items[k].GetChecked() == (k == index)
        invariant forall k :: 0 <= k < |items| ==> items[k].flags & !Checked == old(items[k].flags) & !Checked
      {
        items[i].SetChecked(i == index);
      }
    }

    /** Installs (or removes) the callback; submenus attached earlier keep theirs. */
    method SetFunction(f: Option<PopupFunction>)
      requires forall it :: it in items ==> it.submenu != this
      modifies this`func
      ensures func == f
      ensures forall it :: it in items && it.submenu != null ==> it.submenu.func == old(it.submenu.func)
    {
      func := f;
    }

    /** Invokes the callback with the chosen index and the chosen item (recorded in `Calls`). */
    method ExecFunction()
      requires func.Some?
      modifies this`Calls
      ensures Calls == old(Calls) + [Invocation(func.value, chosenIdx, GetChosenItem())]
    {
      Calls := Calls + [Invocation(func.value, chosenIdx, GetChosenItem())];
    }

    /** The menu reached from this one by following, index by index, the submenus of the
        items at the indices of `path`; null when the path leaves the tree. */
    ghost function Descend(path: seq<int>): (m: PopupMenu?)
      requires Valid()
      reads this`items, this`Menus, this`Entries, Menus`items, Menus`Menus, Menus`Entries
      decreases |path|
    {
      if path == [] then this
      else if 0 <= path[0] < |items| && items[path[0]].submenu != null then
        items[path[0]].submenu.Descend(path[1..])
      else null
    }

    /** Every menu reached by a path is a valid tree inside this footprint, and a non-empty
        path stays inside the subtree of the submenu it starts through, so it never comes back. */
    lemma {:induction false} DescendInTree(path: seq<int>)
      requires Valid()
      ensures Descend(path) != null ==>
                Descend(path) in Menus && Descend(path).Valid() &&
                Descend(path).Menus <= Menus && Descend(path).Entries <= Entries
      ensures |path| > 0 && Descend(path) != null ==>
                items[path[0]].submenu != null &&
                Descend(path) in items[path[0]].submenu.Menus &&
                Descend(path).Entries <= items[path[0]].submenu.Entries &&
                Descend(path) != this
      decreases |path|
    {
      if path != [] && 0 <= path[0] < |items| && items[path[0]].submenu != null {
        var sub := items[path[0]].submenu;
        sub.DescendInTree(path[1..]);
      }
    }

    /** No menu of the tree is reachable along two different paths. */
    lemma {:induction false} DescendUnique(p: seq<int>, q: seq<int>)
      requires Valid()
      requires Descend(p) != null && Descend(q) != null
      requires p != q
      ensures Descend(p) != Descend(q)
      decreases |p|
    {
      DescendInTree(p);
      DescendInTree(q);
      if p != [] && q != [] {
        var a, b := items[p[0]], items[q[0]];
        if p[0] == q[0] {
          assert p == [p[0]] + p[1..] && q == [q[0]] + q[1..];
          a.submenu.DescendUnique(p[1..], q[1..]);
        } else {
          assert a != b;
          assert a.submenu.Menus !! b.submenu.Menus;
        }
      }
    }

    /** No item of the tree is reachable at two different positions: a position is a path
        to a menu and an index into that menu's list. */
    lemma {:induction false} EntryUnique(p: seq<int>, i: int, q: seq<int>, j: int)
      requires Valid()
      requires Descend(p) != null && 0 <= i < |Descend(p).items|
      requires Descend(q) != null && 0 <= j < |Descend(q).items|
      requires p != q || i != j
      ensures Descend(p).items[i] != Descend(q).items[j]
      decreases |p| + |q|
    {
      DescendInTree(p);
      DescendInTree(q);
      var x, y := Descend(p).items[i], Descend(q).items[j];
      if p == q {
        assert Distinct(Descend(p).items);
      } else if p == [] {
        assert y in Descend(q).Entries;
        assert y in items[q[0]].submenu.Entries;
        assert x in items;
      } else if q == [] {
        assert x in Descend(p).Entries;
        assert x in items[p[0]].submenu.Entries;
        assert y in items;
      } else if p[0] == q[0] {
        assert p == [p[0]] + p[1..] && q == [q[0]] + q[1..];
        items[p[0]].submenu.EntryUnique(p[1..], i, q[1..], j);
      } else {
        var a, b := items[p[0]], items[q[0]];
        assert a != b;
        assert x in Descend(p).Entries && y in Descend(q).Entries;
        assert a.submenu.Entries !! b.submenu.Entries;
      }
    }
  }
}
