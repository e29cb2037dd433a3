# Popup menu model

A Dafny model of iPlug2's `IPopupMenu` and its nested `Item` class: the data structure behind a popup or context menu. A menu holds an ordered list of entries it owns. An entry is a plain item, a checkable item, a title, a separator or the holder of a submenu. The menu also holds a prefix-rendering mode, a multi-check hint, the index that the host reports as chosen, and an optional selection callback. When a submenu is attached, the callback is copied down to it.

- `popup_menu.dfy`, module `PopupMenus`:
  - class `Item`: text, flag bits, tag and an optional submenu. `SetChecked` changes the flags in place.
  - class `PopupMenu`: the list `items: seq<Item>`, plus `chosenIdx`, `prefix`, `multiCheck` and `func`.
  - Ownership is a tree. Each menu carries two ghost footprints: `Menus` (itself and every menu below it) and `Entries` (every item owned below it). `Valid()` / `OwnsTree` is the tree invariant:
    - the entries of a list are distinct;
    - each submenu is a tree of its own that contains neither its owner nor any of the owner's entries;
    - no two submenus share a menu or an item.
  - The lemmas `DescendUnique` and `EntryUnique` state what this means along paths through the tree: no menu and no item is reachable twice, and no path leads back to the root.
  - The tree invariant is stated per root menu. Across menus, each item and each menu carries a ghost mark `owned`. Adoption sets it, nothing clears it, and every adding method demands it unset. So an item or submenu is handed over at most once. That holds across two different menus, and also after `Clear` has released it.
- `menu_scenarios.dfy`, module `MenuScenarios`: client methods that derive the documented behaviours from the contracts alone. They cover:
  - a chosen entry surviving check-mark changes;
  - check-alone exclusivity;
  - counting entries and clearing the list;
  - callback propagation to a submenu attached later, and its absence for a submenu attached earlier;
  - the recorded callback invocation;
  - an item that stays marked as owned after `Clear`;
  - clearing a parent whose attached submenu was changed through its own pointer.

Flags are the 32-bit pattern of iPlug2's `int` flags (`bv32`), with the same bit constants. The selection callback is an opaque identifier, `PopupFunction`. Only whether one is present, and which one it is, matters.

Three behaviours of the code that a reader might expect otherwise, modelled as the code has them:
- `Clear` leaves the chosen index as it was. It is not reset to -1.
- `AddItem(str, index, sub)` demands that `sub` has no callback, whatever the parent has.
- `AddItem(str, sub)` lets the parent's callback overwrite the submenu's own. Having both is not refused.

## Model

| member | source | states |
|---|---|---|
| `PopupMenus.InsertAt` | IGraphics/IGraphicsPopupMenu.h:105-117 | inserting at `index` puts the element there, keeps earlier elements, shifts later ones right by one, and adds exactly that element to the contents |
| `PopupMenus.InsertAtDistinct` | IGraphics/IGraphicsPopupMenu.h:105-117 | inserting an element that is not yet in a repetition-free list keeps the list repetition-free |
| `PopupMenus.Item.constructor` | IGraphics/IGraphicsPopupMenu.h:40-45 | a plain entry has the given text, the given flags (none by default), the given tag (-1 by default) and no submenu, and is not yet owned |
| `PopupMenus.Item.WithSubmenu` | IGraphics/IGraphicsPopupMenu.h:47-52 | a submenu entry has the given text, holds the submenu, and has no flags and tag -1, and is not yet owned |
| `PopupMenus.Item.SetText` | IGraphics/IGraphicsPopupMenu.h:62 | the text becomes the given string; nothing else of the item changes |
| `PopupMenus.Item.SetChecked` | IGraphics/IGraphicsPopupMenu.h:72-82 | the checked bit becomes `state`; every other bit, and so the enabled, title and separator getters, is unchanged |
| `PopupMenus.PopupMenu.constructor` | IGraphics/IGraphicsPopupMenu.h:95-98 | a new menu is an empty valid tree with the given prefix (not range-checked) and multi-check hint, chosen index -1 and no callback, and is not yet owned |
| `PopupMenus.PopupMenu.GetItem` | IGraphics/IGraphicsPopupMenu.h:153-165 | non-null exactly when `0 <= index < NItems()`, and then the entry at `index` |
| `PopupMenus.PopupMenu.GetChosenItem` | IGraphics/IGraphicsPopupMenu.h:167-170 | equals `GetItem(chosenIdx)`: the entry at the chosen index, or null when that index names no entry (initially, or after `Clear`) |
| `PopupMenus.PopupMenu.GetItemText` | IGraphics/IGraphicsPopupMenu.h:172-179 | the text of the entry at `index`, or the empty string when there is none |
| `PopupMenus.PopupMenu.IsItemChecked` | IGraphics/IGraphicsPopupMenu.h:213-223 | true exactly when there is an entry at `index` and its checked bit is set |
| `PopupMenus.PopupMenu.AddItem` | IGraphics/IGraphicsPopupMenu.h:105-117 | with index -1 the entry is appended, otherwise inserted at `index` with later entries shifted; the count grows by one and the entry is returned. The entry and its submenu must not have been adopted before and are marked owned afterwards. Its subtree joins the footprint, and the tree invariant is kept |
| `PopupMenus.PopupMenu.AdoptKeepsTree` | IGraphics/IGraphicsPopupMenu.h:105-117 | inserting an entry that is owned nowhere in the tree, whose submenu is a disjoint tree, yields a tree over the enlarged footprint |
| `PopupMenus.PopupMenu.AddTextItem` | IGraphics/IGraphicsPopupMenu.h:119 | a fresh entry with the given text and flags, tag -1 and no submenu is appended or inserted |
| `PopupMenus.PopupMenu.AddSubmenuItem` | IGraphics/IGraphicsPopupMenu.h:121-129 | demands that the submenu has no callback. Afterwards the submenu's callback equals the parent's, so it stays absent when the parent has none. The parent's callback is unchanged. The new entry holds the submenu, has no flags and has tag -1. The submenu must not have been adopted before, and it and the entry are marked owned |
| `PopupMenus.PopupMenu.AppendSubmenuItem` | IGraphics/IGraphicsPopupMenu.h:131-139 | demands that the submenu already has a callback. The new entry is appended. A parent callback overwrites the submenu's, and without one the submenu keeps its own. The parent's callback is unchanged. The submenu must not have been adopted before, and it and the entry are marked owned |
| `PopupMenus.PopupMenu.AddSeparator` | IGraphics/IGraphicsPopupMenu.h:141-145 | a fresh entry with empty text, exactly the separator flag, tag -1 and no submenu is appended or inserted |
| `PopupMenus.PopupMenu.SetChosenItemIdx` | IGraphics/IGraphicsPopupMenu.h:147-148 | `GetChosenItemIdx()` afterwards is the given index, with no range check |
| `PopupMenus.PopupMenu.SetPrefix` | IGraphics/IGraphicsPopupMenu.h:181-187 | the prefix becomes `count` when `0 <= count < 4` and is unchanged otherwise, so a prefix in [0, 3] stays in [0, 3] |
| `PopupMenus.PopupMenu.SetMultiCheck` | IGraphics/IGraphicsPopupMenu.h:189 | the multi-check hint becomes the given value |
| `PopupMenus.PopupMenu.Clear` | IGraphics/IGraphicsPopupMenu.h:191 | works on any menu, valid or not. The list and the owned subtree become empty, and the menu is a valid tree afterwards. The chosen index, prefix, multi-check hint and callback are unchanged |
| `PopupMenus.PopupMenu.CheckItem` | IGraphics/IGraphicsPopupMenu.h:193-203 | demands only that the list has no repeated entry. Returns true exactly when there is an entry at `index`. Only that entry's checked bit changes, and `IsItemChecked(index) == state` afterwards. Every other entry's flags are unchanged, and nothing changes when it returns false |
| `PopupMenus.PopupMenu.CheckItemAlone` | IGraphics/IGraphicsPopupMenu.h:205-211 | demands only that the list has no repeated entry. Afterwards each entry `k` of this menu is checked exactly when `k == index`, so all are unchecked when `index` is out of range. Every other flag bit and the list are unchanged. Only flags are in its frame, so a valid tree stays valid, as `MenuScenarios.CheckAloneKeepsChoice` shows |
| `PopupMenus.PopupMenu.SetFunction` | IGraphics/IGraphicsPopupMenu.h:225-233 | demands only that no entry holds this menu as its submenu. The callback becomes `f`; submenus already attached keep their callbacks (no retroactive propagation) |
| `PopupMenus.PopupMenu.ExecFunction` | IGraphics/IGraphicsPopupMenu.h:235-238 | demands a callback. Exactly one invocation is recorded, carrying the callback, the chosen index and `GetChosenItem()` |
| `PopupMenus.PopupMenu.DescendInTree` | IGraphics/IGraphicsPopupMenu.h:19-22 | every menu reached through submenus is a valid tree inside the owner's footprint. A non-empty path stays inside the subtree of its first submenu, so it never returns to the root |
| `PopupMenus.PopupMenu.DescendUnique` | IGraphics/IGraphicsPopupMenu.h:19-22 | two different paths never reach the same menu: no submenu is owned twice |
| `PopupMenus.PopupMenu.EntryUnique` | IGraphics/IGraphicsPopupMenu.h:54-60 | two different positions in this menu's tree never hold the same item, so releasing the tree depth-first would release each item once. The `owned` marks carry this across menus |

## Left out

- Memory release is not modelled, because Dafny is garbage-collected. This covers `new`/`delete`, the `Item` and `IPopupMenu` destructors, and the `Empty(true)` calls in the destructor and in `Clear`. Only the tree-shaped ownership they rely on is stated, as `Valid()`, the path lemmas and the `owned` marks.
- `WDL_String` and `WDL_PtrList` are not part of this model. Text is a `string` and the list a `seq`.
- `AddItem` passes every index other than -1 to `WDL_PtrList::Insert` unchecked (line 113). `WDL_PtrList` is not part of this model, so its behaviour for an index outside [0, NItems()] is unknown here. The adding methods therefore require `index == -1 || 0 <= index <= NItems()`, and that error path is left out.
- `CheckItem` and `IsItemChecked` call the list's own `Get` without a bounds check of their own. Out of range, that lookup is modelled as absent, the same as `GetItem`.
- Entries are non-null `Item` references, so adding a null item pointer is not modelled.
- The `assert`s on the submenu's callback in the two submenu overloads become preconditions. A release build that compiles them out is not modelled.
- `PopupMenus.PopupMenu.ExecFunction`: records the invocation in the ghost log `Calls` instead of running the callback. The callback's body is opaque and is not modelled, nor anything it might do to the menu. `mPopupFunc` is a `std::function` that starts out empty (line 245), and calling it while empty throws `std::bad_function_call`. `requires func.Some?` leaves that error path out.
- The plain accessors are not separate members. `GetText`, `GetTag`, `GetSubmenu`, `GetPrefix` and `GetCanMultiCheck` are read as the fields `text`, `tag`, `submenu`, `prefix` and `multiCheck`. `NItems`, `GetChosenItemIdx`, `GetFunction` and the four flag getters are functions without contracts of their own. Each just returns a field or tests one bit. What they mean is stated by the contracts above that use them: `AddItem` raises `NItems()` by one and `Clear` brings it to 0; `SetChosenItemIdx`, `SetFunction` and `SetChecked` state the getters' results.
- Presentation is not modelled. That covers how the prefix and the flags are rendered, whether disabled, title or separator entries can be selected, and the `multiCheck` hint, which enforces nothing.
- The tree invariant belongs to the menu whose methods are called. The source also lets a caller change an already-attached submenu through its own pointer. The parent's ghost footprint is not updated by such a change, so the model does not keep the parent's invariant across it. The parent can still use `Clear`, `CheckItem`, `CheckItemAlone`, `SetFunction` and the queries, which do not depend on that invariant. `Clear` makes it valid again, as `MenuScenarios.ClearAfterSubmenuGrows` shows. The adding methods and the path lemmas do need it.
