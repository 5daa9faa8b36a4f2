/** Inodes as objects: the upward walk that pulls rights into an inode's own maps, in place. */
module Inodes {
  import opened Access

  class INode {
    const inode: nat
    const parentInode: nat
    const isDirectory: bool
    var uidAccess: map<nat, Entry>
    var gidAccess: map<nat, Entry>
    /** Looked up on first use. */
    var parentEntry: INode?
    var accessIsCached: bool

    constructor (inode: nat, parentInode: nat, uidAccess: map<nat, Entry>, gidAccess: map<nat, Entry>,
                 isDirectory: bool)
      ensures this.inode == inode && View() == Node(parentInode, uidAccess, gidAccess, isDirectory, false)
      ensures parentEntry == null
    {
      this.inode, this.parentInode := inode, parentInode;
      this.uidAccess, this.gidAccess := uidAccess, gidAccess;
      this.isDirectory := isDirectory;
      parentEntry := null;
      accessIsCached := false;
    }

    function View(): Node
      reads this
    {
      Node(parentInode, uidAccess, gidAccess, isDirectory, accessIsCached)
    }

    method Put(kind: Kind, id: nat, entry: Entry)
      modifies `uidAccess, `gidAccess
      ensures View().Entries(kind) == old(View().Entries(kind))[id := entry]
      ensures kind == Uid ==> gidAccess == old(gidAccess)
      ensures kind == Gid ==> uidAccess == old(uidAccess)
    {
      match kind
      case Uid => uidAccess := uidAccess[id := entry];
      case Gid => gidAccess := gidAccess[id := entry];
    }
  }

  class InodeTable {
    const inodeEntries: map<nat, INode>

    function View(): Tree
      reads inodeEntries.Values
    {
      Tree(map i | i in inodeEntries :: inodeEntries[i].View())
    }

    ghost predicate Valid()
      reads inodeEntries.Values
    {
      && (forall i :: i in inodeEntries ==> inodeEntries[i].inode == i)
      && View().WellFormed()
      && (forall i :: i in inodeEntries && inodeEntries[i].parentEntry != null ==>
            var p := inodeEntries[i].parentInode;
            p in inodeEntries && inodeEntries[i].parentEntry == inodeEntries[p])
    }

    ghost predicate Has(n: INode) {
      n.inode in inodeEntries && inodeEntries[n.inode] == n
    }

    constructor (inodeEntries: map<nat, INode>)
      requires forall i :: i in inodeEntries ==> inodeEntries[i].inode == i && inodeEntries[i].parentEntry == null
      requires Tree(map i | i in inodeEntries :: inodeEntries[i].View()).WellFormed()
      ensures Valid() && this.inodeEntries == inodeEntries
    {
      this.inodeEntries := inodeEntries;
    }

    method ParentEntry(n: INode) returns (p: INode)
      requires Valid() && Has(n) && n.parentInode in inodeEntries
      modifies n`parentEntry
      ensures Valid() && View() == old(View())
      ensures p == inodeEntries[n.parentInode]
    {
      if n.parentEntry == null {
        n.parentEntry := inodeEntries[n.parentInode];
      }
      p := n.parentEntry;
    }

    method Store(n: INode, kind: Kind, id: nat, entry: Entry)
      requires Valid() && Has(n)
      modifies n`uidAccess, n`gidAccess
      ensures Valid() && View() == WithEntry(old(View()), n.inode, kind, id, entry)
    {
      ghost var t := View();
      n.Put(kind, id, entry);
      StoreView(t, n.inode, kind, id, entry);
      assert View() == WithEntry(t, n.inode, kind, id, entry);
    }

    /** One of the two upward walks, adding to the inode's own entry on the way. */
    method Inherit(n: INode, kind: Kind, id: nat)
      requires Valid() && Has(n) && n.inode != ROOT
      modifies n`uidAccess, n`gidAccess, inodeEntries.Values`parentEntry
      ensures Valid()
      ensures var t := old(View());
        View() == WithEntry(t, n.inode, kind, id, Walk(t, n.parentInode, kind, id, t.At(n.inode, kind, id)))
    {
      ghost var t := View();
      HasParent(n);
      var own := n.View().At(kind, id);
      assert own == t.At(n.inode, kind, id);
      Store(n, kind, id, own);
      StoreView(t, n.inode, kind, id, own);
      hide Valid, View, WithEntry, Tree.WellFormed;
      var parent := ParentEntry(n);
      while true
        invariant Valid() && Has(parent) && parent.inode < n.inode && Has(n)
        invariant View() == WithEntry(t, n.inode, kind, id, own)
        invariant Walk(t, parent.inode, kind, id, own) ==
                  Walk(t, n.parentInode, kind, id, t.At(n.inode, kind, id))
        decreases parent.inode
      {
        StoredElsewhere(t, n, parent, kind, id, own);
        var from := parent.View().At(kind, id);
        var before := own;
        if from.cascade {
          own := own.(rights := own.rights.Join(from.rights));
          Store(n, kind, id, own);
          StoreTwice(t, n.inode, kind, id, before, own);
        }
        if from.reset {
          break;
        }
        if parent.inode == ROOT {
          break;
        }
        HasParent(parent);
        parent := ParentEntry(parent);
      }
    }

    lemma HasParent(n: INode)
      requires Valid() && Has(n) && n.inode != ROOT
      ensures n.parentInode in inodeEntries && n.parentInode < n.inode && Has(inodeEntries[n.parentInode])
    {
      assert View().nodes[n.inode].parent == n.parentInode;
    }

    /** The parents on the way up are not the inode that is being written. */
    lemma StoredElsewhere(t: Tree, n: INode, p: INode, kind: Kind, id: nat, own: Entry)
      requires Valid() && Has(n) && Has(p) && p.inode < n.inode && n.inode in t.nodes
      requires View() == WithEntry(t, n.inode, kind, id, own)
      ensures p.inode in t.nodes && p.View() == t.nodes[p.inode]
    {
      assert View().nodes[p.inode] == p.View();
    }

    method PullCascadedAccessRights(n: INode, uid: nat, gid: nat)
      requires Valid() && Has(n)
      modifies n, inodeEntries.Values`parentEntry
      ensures Valid() && View() == Pull(old(View()), n.inode, uid, gid)
    {
      if n.inode == ROOT || n.accessIsCached {
        return;
      }
      ghost var t := View();
      HasParent(n);
      ghost var byUid := Walk(t, n.parentInode, Uid, uid, t.At(n.inode, Uid, uid));
      ghost var byGid := Walk(t, n.parentInode, Gid, gid, t.At(n.inode, Gid, gid));
      PullInParts(t, n.inode, uid, gid);
      StoreView(t, n.inode, Uid, uid, byUid);
      hide Pull, Walk, Valid, View, WithEntry, Tree.WellFormed, Cached;
      Inherit(n, Uid, uid);
      Inherit(n, Gid, gid);
      MarkCached(n);
    }

    method MarkCached(n: INode)
      requires Valid() && Has(n)
      modifies n`accessIsCached
      ensures Valid() && View() == Cached(old(View()), n.inode)
    {
      ghost var t := View();
      n.accessIsCached := true;
      CachedView(t, n.inode);
      assert View() == Cached(t, n.inode);
    }

    method GetAccess(n: INode, uid: nat, gid: nat) returns (canRead: bool, canWrite: bool)
      requires Valid() && Has(n)
      modifies n, inodeEntries.Values`parentEntry
      ensures Valid() && View() == Pull(old(View()), n.inode, uid, gid)
      ensures Rights(canRead, canWrite) == RightsOf(View().nodes[n.inode], uid, gid)
    {
      PullCascadedAccessRights(n, uid, gid);
      var byUid := n.View().At(Uid, uid);
      var byGid := n.View().At(Gid, gid);
      canRead := byUid.rights.read || byGid.rights.read;
      canWrite := byUid.rights.write || byGid.rights.write;
    }
  }

  function WithEntry(t: Tree, n: nat, kind: Kind, id: nat, entry: Entry): Tree
    requires n in t.nodes
  {
    var node := t.nodes[n];
    Tree(t.nodes[n :=
      if kind == Uid then node.(uid := node.uid[id := entry]) else node.(gid := node.gid[id := entry])])
  }

  function Cached(t: Tree, n: nat): Tree
    requires n in t.nodes
  {
    Tree(t.nodes[n := t.nodes[n].(cached := true)])
  }

  lemma CachedView(t: Tree, n: nat)
    requires t.WellFormed() && n in t.nodes
    ensures Cached(t, n).WellFormed()
  {}

  lemma StoreView(t: Tree, n: nat, kind: Kind, id: nat, entry: Entry)
    requires t.WellFormed() && n in t.nodes
    ensures WithEntry(t, n, kind, id, entry).WellFormed()
    ensures WithEntry(t, n, kind, id, entry).nodes.Keys == t.nodes.Keys
  {}

  lemma StoreTwice(t: Tree, n: nat, kind: Kind, id: nat, a: Entry, b: Entry)
    requires n in t.nodes
    ensures n in WithEntry(t, n, kind, id, a).nodes
    ensures WithEntry(WithEntry(t, n, kind, id, a), n, kind, id, b) == WithEntry(t, n, kind, id, b)
  {
    var node := t.nodes[n];
    assert node.uid[id := a][id := b] == node.uid[id := b];
    assert node.gid[id := a][id := b] == node.gid[id := b];
  }

  /** The walk starts above the inode, so it does not see what is stored there. */
  lemma {:induction false} WalkElsewhere(t: Tree, t': Tree, n: nat, p: nat, kind: Kind, id: nat, entry: Entry)
    requires t.WellFormed() && t'.WellFormed() && p in t.nodes && p < n && t'.nodes.Keys == t.nodes.Keys
    requires forall m :: m in t.nodes && m != n ==> t'.nodes[m] == t.nodes[m]
    ensures Walk(t', p, kind, id, entry) == Walk(t, p, kind, id, entry)
    decreases p
  {
    var from := t.At(p, kind, id);
    if !(from.reset || p == ROOT) {
      WalkElsewhere(t, t', n, t.nodes[p].parent, kind, id, Add(entry, from));
    }
  }

  /** Both entries and the flag, put in one after the other. */
  lemma EntriesAndFlag(t: Tree, n: nat, uid: nat, byUid: Entry, gid: nat, byGid: Entry)
    requires n in t.nodes
    ensures var t1 := WithEntry(t, n, Uid, uid, byUid); var node := t.nodes[n];
      && n in t1.nodes && n in WithEntry(t1, n, Gid, gid, byGid).nodes
      && Cached(WithEntry(t1, n, Gid, gid, byGid), n) ==
         Tree(t.nodes[n := Node(node.parent, node.uid[uid := byUid], node.gid[gid := byGid], node.isDirectory, true)])
  {}

  /** A pull is the two walks one after the other, and then the flag. */
  lemma PullInParts(t: Tree, n: nat, uid: nat, gid: nat)
    requires t.WellFormed() && n in t.nodes && n != ROOT && !t.nodes[n].cached
    ensures var p := t.nodes[n].parent;
      var t1 := WithEntry(t, n, Uid, uid, Walk(t, p, Uid, uid, t.At(n, Uid, uid)));
      && t1.WellFormed() && n in t1.nodes && t1.nodes[n].parent == p
      && var t2 := WithEntry(t1, n, Gid, gid, Walk(t1, p, Gid, gid, t1.At(n, Gid, gid)));
         n in t2.nodes && Cached(t2, n) == Pull(t, n, uid, gid)
  {
    hide Walk, Cached;
    var p := t.nodes[n].parent;
    var byUid := Walk(t, p, Uid, uid, t.At(n, Uid, uid));
    var t1 := WithEntry(t, n, Uid, uid, byUid);
    StoreView(t, n, Uid, uid, byUid);
    WalkElsewhere(t, t1, n, p, Gid, gid, t.At(n, Gid, gid));
    EntriesAndFlag(t, n, uid, byUid, gid, Walk(t1, p, Gid, gid, t1.At(n, Gid, gid)));
  }
}
