# VLC Qt4 playlist model: the mirrored playlist tree

The Qt4 interface of VLC keeps its own copy of the playlist as a tree of
`PLItem` nodes, owned by a `PLModel`. This project models that tree and proves
properties of it:

- **`PLItem` nodes** (module `PlaylistModel`):
  - Each node owns an ordered list of children and a list of cached column texts.
  - It carries an item id, an input id, show flags, a non-owning link to its parent, and a link to the model.
  - Reads through `child(row)` and `columnString(col)` follow `QList::value`: an index out of range yields a null pointer or an empty string rather than an error.
  - `appendChild` is `insertChild` at position `childCount()`.
- **`PLModel`'s tree and caches** (module `PlaylistModel`):
  - The model's root node, `shownFlags()`, and the two one-slot lookup caches (by item id and by input id) together with the lookups that fill them.
  - A ghost creation order over the live nodes gives the tree invariant: single root, each child held exactly once, parent links that agree with child lists.
  - The tree invariant also bounds the recursive walk.
- **`PLEvent`** (module `PlaylistEvents`): the change event posted to the model's thread.
  - Four application event type codes, `QEvent::User + 2` to `QEvent::User + 5`.
  - The two constructors: one carries an item id, the other an append payload.
- **`QList` operations** (module `QtList`): the two operations the tree relies on, `value` and `insert`, over sequences.

Files:
- `qt_list.dfy`
- `playlist_events.dfy`
- `playlist_model.dfy`

## Model

| member | source | states |
|---|---|---|
| `QtList.Value` | modules/gui/qt4/playlist_model.hpp:55-57 | `QList::value`: the element at a valid index, the default value at any other index, so the result is an element of the list or the default |
| `QtList.Insert` | modules/gui/qt4/playlist_model.hpp:48 | inserting at a valid position grows the list by one; the new element sits at that position, earlier elements keep their index and later ones move up by one |
| `QtList.InsertValue` | modules/gui/qt4/playlist_model.hpp:55 | reading by `value` after an insert: rows before the position read as before, the position reads the new element, later rows read the row above's old value |
| `QtList.InsertAtEnd` | modules/gui/qt4/playlist_model.hpp:52 | inserting at position `count()` is appending at the end |
| `PlaylistModel.PLItem.constructor` | modules/gui/qt4/playlist_model.hpp:43 | a new node carries the given item id, input id, parent and model, and has no children |
| `PlaylistModel.PLItem.Child` | modules/gui/qt4/playlist_model.hpp:55 | the child at `row` when `0 <= row < childCount`, null for every other row |
| `PlaylistModel.PLItem.ChildCount` | modules/gui/qt4/playlist_model.hpp:56 | equals the length of the children list, and every row that yields a non-null child lies below it |
| `PlaylistModel.PLItem.ColumnString` | modules/gui/qt4/playlist_model.hpp:57 | the cached text of column `col` when in range, the empty string otherwise; reading changes nothing |
| `PlaylistModel.PLItem.Parent` | modules/gui/qt4/playlist_model.hpp:58 | the node's non-owning parent link |
| `PlaylistModel.PLItem.InsertChild` | modules/gui/qt4/playlist_model.hpp:48 | the children list becomes the list with `item` inserted at `p`; the count grows by one; `child(p)` is `item`; earlier rows keep their child and later rows hold the child formerly one row up; the parent link is unchanged; nothing but the children list changes |
| `PlaylistModel.PLItem.AppendChild` | modules/gui/qt4/playlist_model.hpp:50-53 | appends `item` after the last child: the count grows by one, `child(old count)` is `item`, earlier rows and the parent link are unchanged |
| `PlaylistModel.PLModel.constructor` | modules/gui/qt4/playlist_model.hpp:104-105 | a model over a tree holding only its root, with both lookup caches empty, satisfying the tree and cache invariants |
| `PlaylistModel.PLModel.ShownFlags` | modules/gui/qt4/playlist_model.hpp:145 | the root item's show flags |
| `PlaylistModel.PLModel.AppendItem` | modules/gui/qt4/playlist_model.hpp:50-53 | creating a node under a live parent and appending it keeps the tree and cache invariants; it adds exactly that node to the tree, as the parent's new last child and inside its subtree, and leaves the shown flags unchanged |
| `PlaylistModel.PLModel.AppendKeepsTree` | modules/gui/qt4/playlist_model.hpp:50-53 | any step that hangs one fresh, childless node after a parent's last child and changes nothing else preserves the tree and cache invariants and the shown flags, and puts the node in the parent's subtree |
| `PlaylistModel.PLModel.AppendKeepsNode` | modules/gui/qt4/playlist_model.hpp:74 | after such a step every node is still linked to its children and, except for the root, is still held by the parent its link names |
| `PlaylistModel.PLModel.SearchSubtree` | modules/gui/qt4/playlist_model.hpp:181 | a node the walk below `root` returns lies in `root`'s subtree and carries the key (item id or input id) |
| `PlaylistModel.PLModel.FindInner` | modules/gui/qt4/playlist_model.hpp:181-185 | a hit in the matching cache slot returns the cached node; on a miss the result, if non-null, lies in `root`'s subtree; a non-null result is a live node carrying the key and is then stored in that slot; the other slot is untouched; the invariants hold afterwards |
| `PlaylistModel.PLModel.Remember` | modules/gui/qt4/playlist_model.hpp:182-185 | storing a live node that carries the key in its slot keeps the cache invariant and leaves the other slot alone |
| `PlaylistModel.PLModel.FindById` | modules/gui/qt4/playlist_model.hpp:179 | lookup by item id through `p_cached_item`/`i_cached_id`: a non-null result is a live node with that id and lies in the root item's subtree; on a hit it is the cached item, on a miss it lies in the start node's subtree and is stored in the id slot; a null result leaves the id slot as it was; the input-id cache is untouched |
| `PlaylistModel.PLModel.FindByInput` | modules/gui/qt4/playlist_model.hpp:180 | lookup by input id through `p_cached_item_bi`/`i_cached_input_id`: a non-null result is a live node with that input id and lies in the root item's subtree; on a hit it is the cached item, on a miss it lies in the start node's subtree and is stored in the input-id slot; a null result leaves that slot as it was; the item-id cache is untouched |
| `PlaylistModel.PLModel.SubtreeWithinTree` | modules/gui/qt4/playlist_model.hpp:62 | every node of a live node's subtree is a live node of the tree |
| `PlaylistModel.PLModel.SubtreeTransitive` | modules/gui/qt4/playlist_model.hpp:62 | subtrees nest: a node below `y` is below every node `y` is below |
| `PlaylistModel.PLModel.TreeIsRootSubtree` | modules/gui/qt4/playlist_model.hpp:74 | following parent links from any live node ends at the root: the live nodes are exactly the root's subtree |
| `PlaylistModel.PLModel.ParentHoldsChild` | modules/gui/qt4/playlist_model.hpp:74 | every live node other than the root has a live parent that holds it at exactly one row of `child(row)` |
| `PlaylistEvents.KindOf` | modules/gui/qt4/playlist_model.hpp:78-81 | a type code is recognised as a playlist kind exactly when it lies in `User+2 .. User+5`, and the kind found has that code |
| `PlaylistEvents.KindOfTypeCode` | modules/gui/qt4/playlist_model.hpp:78-81 | each kind is recognised back from its own type code |
| `PlaylistEvents.TypeCodesDistinct` | modules/gui/qt4/playlist_model.hpp:78-81 | the four type codes are pairwise distinct and all lie above `QEvent::User` |
| `PlaylistEvents.ToUShort` | modules/gui/qt4/playlist_model.hpp:86 | the conversion of the `int` type to QEvent's 16-bit type field keeps every value in 0 .. 65535 and otherwise yields the value congruent to it modulo 2^16 |
| `PlaylistEvents.NewIdEvent` | modules/gui/qt4/playlist_model.hpp:86-87 | `PLEvent(type, id)` has the given id and a null payload; its type is the given code when that fits QEvent's 16-bit field, and the code narrowed modulo 2^16 otherwise |
| `PlaylistEvents.NewAppendEvent` | modules/gui/qt4/playlist_model.hpp:88-89 | `PLEvent(add)` has type `ItemAppend_Type`, carries `add` and leaves the id unset |
| `PlaylistEvents.IdEventValid` | modules/gui/qt4/playlist_model.hpp:86-87 | an id event is well formed exactly when its code, narrowed to 16 bits, is the update, delete or playlist-update code |
| `PlaylistEvents.IdEventNarrowed` | modules/gui/qt4/playlist_model.hpp:86 | a code 2^16 above the update, delete or playlist-update code builds a well-formed event of that very type |
| `PlaylistEvents.AppendEventValid` | modules/gui/qt4/playlist_model.hpp:88-89 | an append event is well formed exactly when its payload is non-null |
| `PlaylistEvents.ValidByConstructor` | modules/gui/qt4/playlist_model.hpp:83-94 | the well-formed events are exactly the id events with the update, delete or playlist-update code and the append events with a non-null payload |

## Left out

- The Qt item-model surface (`data`, `flags`, `headerData`, `index`, `parent(QModelIndex)`, `rowCount`, `columnCount`, `itemId`, `isCurrent`, `childrenCount`): it adapts the tree to `QModelIndex`, whose semantics belong to Qt.
- Drag and drop, the popup slots, `sendArt`/`removeArt`, `activateItem`, `setRandom`/`setLoop`/`setRepeat`, `hasRandom`/`hasLoop`/`hasRepeat`: these are UI commands and calls into the VLC playlist API.
- `addCallbacks`/`delCallbacks`/`customEvent`: cross-thread callback registration and event posting. The model covers the events themselves, not their delivery.
- The static icon table: presentation only.
- The second `PLItem` constructor (from a `playlist_item_t`), `PLItem::update`, `updateview`, `row` and `remove`: their bodies live in a source file that is not part of this model, as do the contents of `playlist_item_t`, `playlist_add_t`, `playlist_t` and `intf_thread_t`. `playlist_add_t` is an opaque class.
- `rebuild`, `search`, `sort`, `doDelete`, `removeItem`, `recurseDelete`, `doDeleteItem`, `ProcessItemAppend`, `ProcessItemRemoval`, `ProcessInputItemUpdate`, `UpdateTreeItem`, `UpdateNodeChildren`: their bodies are not part of this model. In particular, clearing the lookup caches when a node is removed is not modelled, because no removal is.
- `PlaylistModel.PLItem.constructor`: `init` is not part of this model. The column texts, the `current` flag, the type and the show flags of a new node are left unspecified.
- `PlaylistModel.PLModel.constructor`: it takes the root's ids instead of a `playlist_t`, an `intf_thread_t`, a root `playlist_item_t` and a depth. The depth and the popup state are not modelled.
- `PlaylistModel.PLItem.InsertChild`: its body is not part of this model. It is modelled as `QList::insert` at a valid position `0 <= p <= count()`, and the `signal` flag, which only drives view notifications, has no effect on the node.
- `PlaylistModel.PLModel.FindInner`: the walk's body is not part of this model. A cache hit returns the cached node whatever the start node is, so the fact that the result lies in the start node's subtree is stated for a miss only (and about the tree as it was before the lookup, which changes only the cache slots). Completeness is not stated: neither that a node carrying the key is always found, nor which one is returned when several carry it. The same holds for `FindById` and `FindByInput`.
- `PlaylistModel.PLModel.SearchSubtree`: a pre-order walk is one possible body. Only its soundness is stated.
- `PlaylistEvents.NewAppendEvent`: `PLEvent(add)` leaves `i_id` uninitialised. The model gives it no value (`Id()` is `None`) rather than an arbitrary integer.
- `QEvent::User` is Qt's value, 1000; the four type codes are stated relative to it.
- `PlaylistEvents.NewIdEvent`: C++ leaves unspecified the conversion of an `int` outside `QEvent::Type`'s range to that enum. The model takes the 16-bit truncation that Qt 4's unsigned 16-bit type field applies.
- Integer widths: the ids, flags and keys are unbounded integers. The source only stores and compares them, so no wrap-around arises for them.
