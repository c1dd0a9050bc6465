/** The mirrored playlist tree: PLItem nodes and the parts of PLModel that
    own the tree (its root, the flags shown, and the one-slot lookup caches). */
module PlaylistModel {
  import QtList

  /** One node of the mirrored playlist tree. It owns its children, in
      display order, and caches the text of each column. */
  class PLItem {
    var children: seq<PLItem?>
    var strings: seq<string>
    var current: bool
    var itemType: int
    var id: int
    var inputId: int
    var showFlags: int
    var parentItem: PLItem?
    var model: PLModel?

    /** PLItem(id, inputId, parent, model). A new node starts with no
        children; the column texts, type and flags are filled in by code
        that is not part of this model and are left unspecified. */
    constructor (id: int, inputId: int, parent: PLItem?, m: PLModel?)
      ensures this.id == id && this.inputId == inputId
      ensures parentItem == parent && model == m
      ensures children == []
    {
      this.id := id;
      this.inputId := inputId;
      parentItem := parent;
      model := m;
      children := [];
    }

    /** The child at row, or null when row is not a valid row. */
    function Child(row: int): (r: PLItem?)
      reads this
      ensures 0 <= row < |children| ==> r == children[row]
      ensures row < 0 || |children| <= row ==> r == null
    {
      QtList.Value(children, row, null)
    }

    /** The number of children: every non-null row lies below it. */
    function ChildCount(): (n: int)
      reads this
      ensures n == |children|
      ensures forall row :: Child(row) != null ==> 0 <= row < n
    {
      |children|
    }

    /** The cached text of column col, or "" when col is out of range. */
    function ColumnString(col: int): (s: string)
      reads this
      ensures 0 <= col < |strings| ==> s == strings[col]
      ensures col < 0 || |strings| <= col ==> s == ""
    {
      QtList.Value(strings, col, "")
    }

    /** The non-owning link to the node that holds this one (null at the root). */
    function Parent(): (p: PLItem?)
      reads this
      ensures p == parentItem
    {
      parentItem
    }

    /** Inserts item at row p. The signal flag only decides whether views
        are told about the new row; it does not affect the node. */
    method InsertChild(item: PLItem?, p: int, signal: bool)
      requires 0 <= p <= |children|
      modifies this`children
      ensures children == QtList.Insert(old(children), p, item)
      ensures ChildCount() == old(ChildCount()) + 1
      ensures Child(p) == item
      ensures forall row :: row < p ==> Child(row) == old(Child(row))
      ensures forall row :: p < row ==> Child(row) == old(Child(row - 1))
      ensures Parent() == old(Parent())
    {
      children := QtList.Insert(children, p, item);
      forall row | row != p
        ensures Child(row) == if row < p then old(Child(row)) else old(Child(row - 1))
      {
        QtList.InsertValue(old(children), p, item, row, null);
      }
    }

    /** Inserts item after the last child. */
    method AppendChild(item: PLItem?, signal: bool)
      modifies this`children
      ensures children == old(children) + [item]
      ensures ChildCount() == old(ChildCount()) + 1
      ensures Child(old(ChildCount())) == item
      ensures forall row :: row < old(ChildCount()) ==> Child(row) == old(Child(row))
      ensures Parent() == old(Parent())
    {
      QtList.InsertAtEnd(children, item);
      InsertChild(item, ChildCount(), signal);
    }
  }

  /** The parts of the playlist model that own the mirrored tree. */
  class PLModel {
    var rootItem: PLItem
    /** One-slot cache of the last lookup by item id. */
    var cachedItem: PLItem?
    var cachedId: int
    /** One-slot cache of the last lookup by input id. */
    var cachedItemByInput: PLItem?
    var cachedInputId: int

    /** The nodes of the tree, each with its creation order: a node is
        created after the node it is created under. */
    ghost var Order: map<PLItem, nat>
    ghost var nextOrder: nat

    /** n's children are live nodes that point back to n, created after n,
        each appearing once. */
    ghost predicate Linked(n: PLItem)
      requires n in Order
      reads this`Order, n`children, Order.Keys`parentItem
    {
      && (forall i :: 0 <= i < |n.children| ==>
            n.children[i] != null && n.children[i] in Order &&
            n.children[i].parentItem == n && Order[n] < Order[n.children[i]])
      && (forall i, j :: 0 <= i < j < |n.children| ==> n.children[i] != n.children[j])
    }

    /** The tree invariant: a single root without a parent, every other node
        held by its parent, and all nodes linked. */
    ghost predicate TreeValid()
      reads this`rootItem, this`Order, this`nextOrder
      reads Order.Keys`children, Order.Keys`parentItem, Order.Keys`model
    {
      && rootItem in Order
      && rootItem.parentItem == null
      && (forall n {:trigger Order[n]} | n in Order ::
            Order[n] < nextOrder && n.model == this && Linked(n))
      && (forall n {:trigger Order[n]} | n in Order && n != rootItem ::
            n.parentItem != null && n.parentItem in Order && n in n.parentItem.children)
    }

    /** Each cache slot is either empty or names a live node that carries
        the cached key. */
    ghost predicate CacheValid()
      reads this, Order.Keys`id, Order.Keys`inputId
    {
      && (cachedItem != null ==> cachedItem in Order && cachedItem.id == cachedId)
      && (cachedItemByInput != null ==>
            cachedItemByInput in Order && cachedItemByInput.inputId == cachedInputId)
    }

    ghost predicate Valid()
      reads this, Order.Keys`children, Order.Keys`parentItem, Order.Keys`model
      reads Order.Keys`id, Order.Keys`inputId
    {
      TreeValid() && CacheValid()
    }

    /** x is n or lies below one of n's children. */
    ghost predicate InSubtree(x: PLItem, n: PLItem)
      requires TreeValid() && n in Order
      reads this`rootItem, this`Order, this`nextOrder
      reads Order.Keys`children, Order.Keys`parentItem, Order.Keys`model
      decreases nextOrder - Order[n]
    {
      x == n || exists i :: 0 <= i < |n.children| && InSubtree(x, n.children[i])
    }

    /** A model over a tree holding only its root, with both caches empty. */
    constructor (rootId: int, rootInputId: int)
      ensures Valid()
      ensures rootItem.id == rootId && rootItem.inputId == rootInputId
      ensures rootItem.children == [] && Order.Keys == {rootItem}
      ensures cachedItem == null && cachedItemByInput == null
    {
      var root := new PLItem(rootId, rootInputId, null, null);
      rootItem := root;
      cachedItem := null;
      cachedItemByInput := null;
      Order := map[root := 0];
      nextOrder := 1;
      new;
      root.model := this;
    }

    /** The flags that say which items are shown: the root's. */
    function ShownFlags(): (f: int)
      reads this`rootItem, rootItem`showFlags
      ensures f == rootItem.showFlags
    {
      rootItem.showFlags
    }

    /** Does n carry key, as an item id or as an input id? */
    predicate Matches(n: PLItem, key: int, byInput: bool)
      reads n
    {
      if byInput then n.inputId == key else n.id == key
    }

    function CachedItem(byInput: bool): PLItem?
      reads this
    {
      if byInput then cachedItemByInput else cachedItem
    }

    function CachedKey(byInput: bool): int
      reads this
    {
      if byInput then cachedInputId else cachedId
    }

    /** A node created under parent and appended after its last child. The
        rest of the tree, the root's flags and the caches are unchanged. */
    method AppendItem(parent: PLItem, id: int, inputId: int) returns (item: PLItem)
      requires Valid() && parent in Order
      modifies this`Order, this`nextOrder, parent`children
      ensures Valid() && fresh(item)
      ensures Order.Keys == old(Order.Keys) + {item}
      ensures item.id == id && item.inputId == inputId
      ensures item.Parent() == parent && item.children == []
      ensures parent.children == old(parent.children) + [item]
      ensures ShownFlags() == old(ShownFlags())
      ensures InSubtree(item, parent)
    {
      item := new PLItem(id, inputId, parent, this);
      Order, nextOrder := Order[item := nextOrder], nextOrder + 1;
      parent.AppendChild(item, true);
      AppendKeepsTree(parent, item);
    }

    /** The tree walk below root: a node it returns lies in root's subtree
        and carries the key. */
    method SearchSubtree(root: PLItem, key: int, byInput: bool) returns (r: PLItem?)
      requires TreeValid() && root in Order
      ensures TreeValid()
      ensures r != null ==> InSubtree(r, root) && Matches(r, key, byInput)
      decreases nextOrder - Order[root]
    {
      if Matches(root, key, byInput) {
        return root;
      }
      var i := 0;
      while i < |root.children|
        invariant 0 <= i <= |root.children|
      {
        var c := root.children[i];
        r := SearchSubtree(c, key, byInput);
        if r != null {
          return;
        }
        i := i + 1;
      }
      return null;
    }

    /** Lookup with a one-slot cache per kind of key: a cache hit returns the
        cached node without a walk; a miss walks root's subtree and, when it
        finds a node, puts it in the slot. The other slot is left alone. */
    method FindInner(root: PLItem, key: int, byInput: bool) returns (r: PLItem?)
      requires Valid() && root in Order
      modifies this`cachedItem, this`cachedId, this`cachedItemByInput, this`cachedInputId
      ensures Valid()
      ensures r != null ==> r in Order && Matches(r, key, byInput)
      ensures old(CachedItem(byInput)) != null && old(CachedKey(byInput)) == key ==>
        r == old(CachedItem(byInput))
      ensures !(old(CachedItem(byInput)) != null && old(CachedKey(byInput)) == key) ==>
        r == null || old(InSubtree(r, root))
      ensures r != null ==> CachedItem(byInput) == r && CachedKey(byInput) == key
      ensures r == null ==>
        CachedItem(byInput) == old(CachedItem(byInput)) && CachedKey(byInput) == old(CachedKey(byInput))
      ensures CachedItem(!byInput) == old(CachedItem(!byInput))
      ensures CachedKey(!byInput) == old(CachedKey(!byInput))
    {
      if CachedItem(byInput) != null && CachedKey(byInput) == key {
        return CachedItem(byInput);
      }
      r := SearchSubtree(root, key, byInput);
      if r != null {
        SubtreeWithinTree(r, root);
        Remember(r, key, byInput);
      }
    }

    /** Puts node, which carries key, into the cache slot for that kind of
        key; the other slot is left alone. */
    method Remember(node: PLItem, key: int, byInput: bool)
      requires Valid() && node in Order && Matches(node, key, byInput)
      modifies this`cachedItem, this`cachedId, this`cachedItemByInput, this`cachedInputId
      ensures Valid()
      ensures CachedItem(byInput) == node && CachedKey(byInput) == key
      ensures CachedItem(!byInput) == old(CachedItem(!byInput))
      ensures CachedKey(!byInput) == old(CachedKey(!byInput))
    {
      if byInput {
        cachedItemByInput, cachedInputId := node, key;
      } else {
        cachedItem, cachedId := node, key;
      }
    }

    /** Lookup by item id through the id cache. Whatever node the lookup
        starts from, a node it returns is a node of the whole tree. */
    method FindById(root: PLItem, id: int) returns (r: PLItem?)
      requires Valid() && root in Order
      modifies this`cachedItem, this`cachedId, this`cachedItemByInput, this`cachedInputId
      ensures Valid()
      ensures r != null ==> r in Order && r.id == id
      ensures old(cachedItem) != null && old(cachedId) == id ==> r == old(cachedItem)
      ensures !(old(cachedItem) != null && old(cachedId) == id) ==> r == null || old(InSubtree(r, root))
      ensures r != null ==> InSubtree(r, rootItem)
      ensures r != null ==> cachedItem == r && cachedId == id
      ensures r == null ==> cachedItem == old(cachedItem) && cachedId == old(cachedId)
      ensures cachedItemByInput == old(cachedItemByInput) && cachedInputId == old(cachedInputId)
    {
      r := FindInner(root, id, false);
      if r != null {
        TreeIsRootSubtree(r);
      }
    }

    /** Lookup by input id through the input cache. Whatever node the lookup
        starts from, a node it returns is a node of the whole tree. */
    method FindByInput(root: PLItem, inputId: int) returns (r: PLItem?)
      requires Valid() && root in Order
      modifies this`cachedItem, this`cachedId, this`cachedItemByInput, this`cachedInputId
      ensures Valid()
      ensures r != null ==> r in Order && r.inputId == inputId
      ensures old(cachedItemByInput) != null && old(cachedInputId) == inputId ==>
        r == old(cachedItemByInput)
      ensures !(old(cachedItemByInput) != null && old(cachedInputId) == inputId) ==>
        r == null || old(InSubtree(r, root))
      ensures r != null ==> InSubtree(r, rootItem)
      ensures r != null ==> cachedItemByInput == r && cachedInputId == inputId
      ensures r == null ==> cachedItemByInput == old(cachedItemByInput) && cachedInputId == old(cachedInputId)
      ensures cachedItem == old(cachedItem) && cachedId == old(cachedId)
    {
      r := FindInner(root, inputId, true);
      if r != null {
        TreeIsRootSubtree(r);
      }
    }

    /** The step from the previous state to this one hangs the fresh,
        childless node item under parent, after parent's last child, gives
        it the next creation order and changes nothing else. */
    twostate predicate AppendStep(parent: PLItem, new item: PLItem)
      reads *
    {
      && old(parent in Order) && fresh(item)
      && unchanged(this`rootItem)
      && Order == old(Order)[item := old(nextOrder)] && nextOrder == old(nextOrder) + 1
      && (forall m | m in old(Order) && m != parent :: unchanged(m))
      && parent.children == old(parent.children) + [item]
      && unchanged(parent`parentItem, parent`model, parent`id, parent`inputId, parent`showFlags)
      && item.parentItem == parent && item.model == this && item.children == []
      && unchanged(this`cachedItem, this`cachedId, this`cachedItemByInput, this`cachedInputId)
    }

    /** After an append step every node is still linked to its children and,
        unless it is the root, still held by its parent. */
    twostate lemma AppendKeepsNode(parent: PLItem, new item: PLItem, new n: PLItem)
      requires old(TreeValid()) && AppendStep(parent, item) && n in Order
      ensures Order[n] < nextOrder && n.model == this && Linked(n)
      ensures n != rootItem ==>
        n.parentItem != null && n.parentItem in Order && n in n.parentItem.children
    {
      if n != item {
        assert old(Order[n]) == Order[n];
        assert old(Linked(n));
        if n == parent {
          assert forall i :: 0 <= i < |old(parent.children)| ==>
            parent.children[i] == old(parent.children)[i];
        }
        if n != rootItem {
          assert n in old(n.parentItem.children);
        }
      }
    }

    /** An append step keeps the invariant, and the new node lies in parent's
        subtree. */
    twostate lemma AppendKeepsTree(parent: PLItem, new item: PLItem)
      requires old(Valid()) && AppendStep(parent, item)
      ensures Valid() && InSubtree(item, parent)
      ensures ShownFlags() == old(ShownFlags())
    {
      forall n | n in Order
        ensures Order[n] < nextOrder && n.model == this && Linked(n)
        ensures n != rootItem ==>
          n.parentItem != null && n.parentItem in Order && n in n.parentItem.children
      {
        AppendKeepsNode(parent, item, n);
      }
      assert TreeValid();
      assert CacheValid() by {
        assert cachedItem != null ==> cachedItem.id == old(cachedItem.id);
        assert cachedItemByInput != null ==> cachedItemByInput.inputId == old(cachedItemByInput.inputId);
      }
      assert parent.children[|parent.children| - 1] == item;
      assert InSubtree(item, item);
    }

    /** Every node of a subtree is a node of the tree. */
    lemma {:induction false} SubtreeWithinTree(x: PLItem, n: PLItem)
      requires TreeValid() && n in Order && InSubtree(x, n)
      ensures x in Order
      decreases nextOrder - Order[n]
    {
      if x != n {
        var i :| 0 <= i < |n.children| && InSubtree(x, n.children[i]);
        SubtreeWithinTree(x, n.children[i]);
      }
    }

    /** Subtrees nest: what lies below y lies below anything y lies below. */
    lemma {:induction false} SubtreeTransitive(x: PLItem, y: PLItem, z: PLItem)
      requires TreeValid() && y in Order && z in Order
      requires InSubtree(x, y) && InSubtree(y, z)
      ensures InSubtree(x, z)
      decreases nextOrder - Order[z]
    {
      if y != z {
        var i :| 0 <= i < |z.children| && InSubtree(y, z.children[i]);
        SubtreeTransitive(x, y, z.children[i]);
      }
    }

    /** Walking up parent links from a node ends at the root: every node of
        the tree lies in the root's subtree, and nothing else does. */
    lemma {:induction false} TreeIsRootSubtree(x: PLItem)
      requires TreeValid()
      ensures x in Order <==> InSubtree(x, rootItem)
      decreases if x in Order then Order[x] else 0
    {
      if InSubtree(x, rootItem) {
        SubtreeWithinTree(x, rootItem);
      }
      if x in Order && x != rootItem {
        var p := x.parentItem;
        var i :| 0 <= i < |p.children| && p.children[i] == x;
        assert Linked(p);
        TreeIsRootSubtree(p);
        assert InSubtree(x, p.children[i]);
        SubtreeTransitive(x, p, rootItem);
      }
    }

    /** The parent link and the child lists agree: every node other than the
        root has a parent in the tree that holds it at exactly one row. */
    lemma ParentHoldsChild(x: PLItem)
      requires TreeValid() && x in Order && x != rootItem
      ensures x.Parent() != null && x.Parent() in Order
      ensures exists row :: 0 <= row < x.Parent().ChildCount() && x.Parent().Child(row) == x
      ensures forall r1, r2 :: x.Parent().Child(r1) == x && x.Parent().Child(r2) == x ==> r1 == r2
    {
      var p := x.parentItem;
      assert Linked(p);
      var i :| 0 <= i < |p.children| && p.children[i] == x;
      assert p.Child(i) == x;
    }
  }
}
