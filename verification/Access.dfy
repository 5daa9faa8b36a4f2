/**
  Access rights in the inode tree. Rights granted with "cascade" flow down to descendants until an
  entry with "reset"; each inode stores what it inherited the first time it is asked.
 */
module Access {
  import opened Words

  datatype Rights = Rights(read: bool, write: bool) {
    function Join(other: Rights): Rights {
      Rights(read || other.read, write || other.write)
    }

    predicate Within(other: Rights) {
      (read ==> other.read) && (write ==> other.write)
    }
  }

  const NO_RIGHTS := Rights(false, false)

  /** The access entry of one user or group at one inode. */
  datatype Entry = Entry(rights: Rights, cascade: bool, reset: bool)

  const NO_ENTRY := Entry(NO_RIGHTS, false, false)

  datatype Kind = Uid | Gid

  datatype Node = Node(parent: nat, uid: map<nat, Entry>, gid: map<nat, Entry>, isDirectory: bool, cached: bool) {
    function Entries(kind: Kind): map<nat, Entry> {
      if kind == Uid then uid else gid
    }

    function At(kind: Kind, id: nat): Entry {
      if id in Entries(kind) then Entries(kind)[id] else NO_ENTRY
    }
  }

  const ROOT: nat := 1

  datatype Tree = Tree(nodes: map<nat, Node>) {
    /** The root is inode 1, and every other inode was numbered after its parent. */
    ghost predicate WellFormed() {
      ROOT in nodes && forall n :: n in nodes && n != ROOT ==> nodes[n].parent in nodes && nodes[n].parent < n
    }

    function At(n: nat, kind: Kind, id: nat): Entry
      requires n in nodes
    {
      nodes[n].At(kind, id)
    }
  }

  function Add(entry: Entry, from: Entry): Entry {
    if from.cascade then entry.(rights := entry.rights.Join(from.rights)) else entry
  }

  /** The upward walk from `p`, adding what cascades to `entry`. */
  function Walk(t: Tree, p: nat, kind: Kind, id: nat, entry: Entry): Entry
    requires t.WellFormed() && p in t.nodes
    decreases p
  {
    var from := t.At(p, kind, id);
    if from.reset || p == ROOT then Add(entry, from)
    else Walk(t, t.nodes[p].parent, kind, id, Add(entry, from))
  }

  /** Pulls inherited rights into the inode's own maps, unless it is the root or already did so. */
  function Pull(t: Tree, n: nat, uid: nat, gid: nat): Tree
    requires t.WellFormed() && n in t.nodes
  {
    var node := t.nodes[n];
    if n == ROOT || node.cached then t
    else
      Tree(t.nodes[n :=
        Node(node.parent,
             node.uid[uid := Walk(t, node.parent, Uid, uid, node.At(Uid, uid))],
             node.gid[gid := Walk(t, node.parent, Gid, gid, node.At(Gid, gid))],
             node.isDirectory,
             true)])
  }

  /** The rights of a caller with the given user and group id, as the maps now are. */
  function RightsOf(node: Node, uid: nat, gid: nat): Rights {
    node.At(Uid, uid).rights.Join(node.At(Gid, gid).rights)
  }

  // The recursive definition ---------------------------------------------------------------

  /** What `p` passes on to its children. */
  function PassedOn(c: Tree, p: nat, kind: Kind, id: nat): Rights
    requires c.WellFormed() && p in c.nodes
    decreases p
  {
    var entry := c.At(p, kind, id);
    (if entry.cascade then entry.rights else NO_RIGHTS).Join(
      if entry.reset || p == ROOT then NO_RIGHTS else PassedOn(c, c.nodes[p].parent, kind, id))
  }

  function Inherited(c: Tree, n: nat, kind: Kind, id: nat): Rights
    requires c.WellFormed() && n in c.nodes
  {
    if n == ROOT then NO_RIGHTS else PassedOn(c, c.nodes[n].parent, kind, id)
  }

  function Effective(c: Tree, n: nat, kind: Kind, id: nat): Rights
    requires c.WellFormed() && n in c.nodes
  {
    c.At(n, kind, id).rights.Join(Inherited(c, n, kind, id))
  }

  lemma {:induction false} WalkAdds(t: Tree, p: nat, kind: Kind, id: nat, entry: Entry)
    requires t.WellFormed() && p in t.nodes
    ensures Walk(t, p, kind, id, entry) == entry.(rights := entry.rights.Join(PassedOn(t, p, kind, id)))
    decreases p
  {
    var from := t.At(p, kind, id);
    if !(from.reset || p == ROOT) {
      WalkAdds(t, t.nodes[p].parent, kind, id, Add(entry, from));
    }
  }

  // Histories of queries -------------------------------------------------------------------

  datatype History = Unasked | Asked(before: History, inode: nat, uid: nat, gid: nat)

  /** Every query is about an inode of the tree. */
  ghost predicate About(h: History, c: Tree) {
    h.Asked? ==> h.inode in c.nodes && About(h.before, c)
  }

  /** The tree that the queries leave behind, starting from a freshly built one. */
  ghost function After(c: Tree, h: History): (t: Tree)
    requires Fresh(c) && About(h, c)
    ensures t.WellFormed() && t.nodes.Keys == c.nodes.Keys
    ensures forall n :: n in c.nodes ==> t.nodes[n].parent == c.nodes[n].parent
  {
    match h
    case Unasked => c
    case Asked(before, n, uid, gid) => Pull(After(c, before), n, uid, gid)
  }

  ghost predicate Fresh(c: Tree) {
    c.WellFormed() && forall n :: n in c.nodes ==> !c.nodes[n].cached
  }

  /** The id of the given kind that an inode was first asked about; the root never stores any. */
  function FirstId(h: History, n: nat, kind: Kind): Option<nat> {
    match h
    case Unasked => None
    case Asked(before, m, uid, gid) =>
      var earlier := FirstId(before, n, kind);
      if earlier.Some? || m != n || n == ROOT then earlier
      else Some(if kind == Uid then uid else gid)
  }

  /** The answer to a query after some history, including the pull that the query itself does. */
  ghost function AnswerAfter(c: Tree, h: History, n: nat, uid: nat, gid: nat): Rights
    requires Fresh(c) && About(h, c) && n in c.nodes
  {
    RightsOf(After(c, Asked(h, n, uid, gid)).nodes[n], uid, gid)
  }

  lemma PullAt(t: Tree, n: nat, uid: nat, gid: nat, m: nat, kind: Kind, id: nat)
    requires t.WellFormed() && n in t.nodes && m in t.nodes
    ensures var t' := Pull(t, n, uid, gid);
      var asked := if kind == Uid then uid else gid;
      t'.At(m, kind, id) ==
        if m == n && n != ROOT && !t.nodes[n].cached && id == asked
        then t.At(m, kind, id).(rights := Effective(t, m, kind, id))
        else t.At(m, kind, id)
  {
    if m == n && n != ROOT && !t.nodes[n].cached {
      var asked := if kind == Uid then uid else gid;
      WalkAdds(t, t.nodes[n].parent, kind, asked, t.At(n, kind, asked));
    }
  }

  // What holds for every history -----------------------------------------------------------

  /**
    What `p` can come to pass on when it and the inodes above it were asked before: an entry with
    "cascade" hands on whatever it has stored, so that only a "reset" without "cascade" stops the rest.
   */
  function CanPassOn(c: Tree, p: nat, kind: Kind, id: nat): Rights
    requires c.WellFormed() && p in c.nodes
    decreases p
  {
    var entry := c.At(p, kind, id);
    (if entry.cascade then entry.rights else NO_RIGHTS).Join(
      if (entry.reset && !entry.cascade) || p == ROOT then NO_RIGHTS
      else CanPassOn(c, c.nodes[p].parent, kind, id))
  }

  function CanInherit(c: Tree, n: nat, kind: Kind, id: nat): Rights
    requires c.WellFormed() && n in c.nodes
  {
    if n == ROOT then NO_RIGHTS else CanPassOn(c, c.nodes[n].parent, kind, id)
  }

  ghost predicate SameShape(c: Tree, t: Tree) {
    && c.WellFormed() && t.WellFormed() && t.nodes.Keys == c.nodes.Keys
    && (forall n :: n in c.nodes ==> t.nodes[n].parent == c.nodes[n].parent)
  }

  /** The entry kept its flags and its configured rights, and has no more than it can inherit. */
  ghost predicate Between(c: Tree, t: Tree, n: nat, kind: Kind, id: nat)
    requires SameShape(c, t) && n in c.nodes
  {
    var stored, own := t.At(n, kind, id), c.At(n, kind, id);
    && stored.cascade == own.cascade && stored.reset == own.reset
    && own.rights.Within(stored.rights)
    && stored.rights.Within(own.rights.Join(CanInherit(c, n, kind, id)))
  }

  ghost predicate Bounded(c: Tree, t: Tree, kind: Kind, id: nat)
    requires SameShape(c, t)
  {
    forall n :: n in c.nodes ==> Between(c, t, n, kind, id)
  }

  lemma {:induction false} PassedOnBounded(c: Tree, t: Tree, p: nat, kind: Kind, id: nat)
    requires SameShape(c, t) && Bounded(c, t, kind, id) && p in c.nodes
    ensures PassedOn(c, p, kind, id).Within(PassedOn(t, p, kind, id))
    ensures PassedOn(t, p, kind, id).Within(CanPassOn(c, p, kind, id))
    decreases p
  {
    assert Between(c, t, p, kind, id);
    if p != ROOT {
      PassedOnBounded(c, t, c.nodes[p].parent, kind, id);
    }
  }

  lemma InheritedBounded(c: Tree, t: Tree, n: nat, kind: Kind, id: nat)
    requires SameShape(c, t) && Bounded(c, t, kind, id) && n in c.nodes
    ensures Inherited(c, n, kind, id).Within(Inherited(t, n, kind, id))
    ensures Inherited(t, n, kind, id).Within(CanInherit(c, n, kind, id))
  {
    if n != ROOT {
      PassedOnBounded(c, t, c.nodes[n].parent, kind, id);
    }
  }

  lemma PullKeepsShape(c: Tree, t: Tree, n: nat, uid: nat, gid: nat)
    requires SameShape(c, t) && n in c.nodes
    ensures SameShape(c, Pull(t, n, uid, gid))
  {
    hide Walk;
  }

  lemma PullKeepsBetween(c: Tree, t: Tree, n: nat, uid: nat, gid: nat, m: nat, kind: Kind, id: nat)
    requires SameShape(c, t) && Bounded(c, t, kind, id) && n in c.nodes && m in c.nodes
    requires SameShape(c, Pull(t, n, uid, gid))
    ensures Between(c, Pull(t, n, uid, gid), m, kind, id)
  {
    hide Pull, Walk, CanInherit, Inherited, Tree.WellFormed;
    PullAt(t, n, uid, gid, m, kind, id);
    assert Between(c, t, m, kind, id);
    InheritedBounded(c, t, m, kind, id);
  }

  lemma PullKeepsBounded(c: Tree, t: Tree, n: nat, uid: nat, gid: nat, kind: Kind, id: nat)
    requires SameShape(c, t) && Bounded(c, t, kind, id) && n in c.nodes
    ensures SameShape(c, Pull(t, n, uid, gid)) && Bounded(c, Pull(t, n, uid, gid), kind, id)
  {
    hide Pull, Between, Tree.WellFormed;
    PullKeepsShape(c, t, n, uid, gid);
    forall m | m in c.nodes
      ensures Between(c, Pull(t, n, uid, gid), m, kind, id)
    {
      PullKeepsBetween(c, t, n, uid, gid, m, kind, id);
    }
  }

  /**
    For every history, whoever asks and whatever the flags: an inode's stored entry keeps its flags
    and its configured rights, and never gains more than it can inherit.
   */
  lemma {:induction false} RightsStayBounded(c: Tree, h: History, kind: Kind, id: nat)
    requires Fresh(c) && About(h, c)
    ensures SameShape(c, After(c, h)) && Bounded(c, After(c, h), kind, id)
  {
    if h.Asked? {
      RightsStayBounded(c, h.before, kind, id);
      PullKeepsBounded(c, After(c, h.before), h.inode, h.uid, h.gid, kind, id);
    }
  }

  /**
    What is stored for an id after any history. Unless the inode was first asked about that id, it
    is the configuration; otherwise at least the recursive definition.
   */
  lemma {:induction false} FirstIdIsStored(c: Tree, h: History, n: nat, kind: Kind, id: nat)
    requires Fresh(c) && About(h, c) && n in c.nodes
    ensures FirstId(h, n, kind) != Some(id) ==> After(c, h).At(n, kind, id) == c.At(n, kind, id)
    ensures FirstId(h, n, kind) == Some(id) ==>
      Effective(c, n, kind, id).Within(After(c, h).At(n, kind, id).rights)
    decreases h
  {
    if h.Asked? {
      hide Pull, Walk, PassedOn, CanPassOn;
      var t := After(c, h.before);
      FirstIdIsStored(c, h.before, n, kind, id);
      RightsStayBounded(c, h.before, kind, id);
      AskedIsCached(c, h.before, n);
      PullAt(t, h.inode, h.uid, h.gid, n, kind, id);
      InheritedBounded(c, t, n, kind, id);
    }
  }

  function Continued(h: History, more: History): History {
    match more
    case Unasked => h
    case Asked(before, n, uid, gid) => Asked(Continued(h, before), n, uid, gid)
  }

  lemma {:induction false} ContinuedAbout(c: Tree, h: History, more: History)
    requires About(h, c) && About(more, c)
    ensures About(Continued(h, more), c)
  {
    if more.Asked? {
      ContinuedAbout(c, h, more.before);
    }
  }

  lemma CachedIsKept(t: Tree, n: nat, uid: nat, gid: nat, m: nat)
    requires t.WellFormed() && n in t.nodes && m in t.nodes && t.nodes[m].cached
    ensures Pull(t, n, uid, gid).nodes[m] == t.nodes[m]
  {}

  /** Once an inode other than the root was asked about, its answers to everyone are final. */
  lemma {:induction false} AnswersAreFinal(c: Tree, h: History, n: nat, more: History)
    requires Fresh(c) && About(h, c) && n in c.nodes && n != ROOT && FirstId(h, n, Uid).Some?
    requires About(more, c)
    ensures About(Continued(h, more), c)
    ensures After(c, Continued(h, more)).nodes[n] == After(c, h).nodes[n]
    decreases more
  {
    hide Pull, FirstId;
    ContinuedAbout(c, h, more);
    AskedIsCached(c, h, n);
    if more.Asked? {
      AnswersAreFinal(c, h, n, more.before);
      CachedIsKept(After(c, Continued(h, more.before)), more.inode, more.uid, more.gid, n);
    }
  }

  lemma {:induction false} AskedIsCached(c: Tree, h: History, n: nat)
    requires Fresh(c) && About(h, c) && n in c.nodes
    ensures After(c, h).nodes[n].cached <==> FirstId(h, n, Uid).Some?
    ensures FirstId(h, n, Uid).Some? <==> FirstId(h, n, Gid).Some?
  {
    if h.Asked? {
      AskedIsCached(c, h.before, n);
    }
  }

  // Asking from the root downwards ---------------------------------------------------------

  /** One caller asks about every inode on the path to `n`, the uppermost first. */
  function TopDown(c: Tree, n: nat, uid: nat, gid: nat): History
    requires c.WellFormed() && n in c.nodes
    decreases n
  {
    if n == ROOT then Unasked else Asked(TopDown(c, c.nodes[n].parent, uid, gid), n, uid, gid)
  }

  lemma {:induction false} TopDownIsAbout(c: Tree, n: nat, uid: nat, gid: nat, m: nat)
    requires c.WellFormed() && n in c.nodes
    ensures About(TopDown(c, n, uid, gid), c) && AlwaysBy(TopDown(c, n, uid, gid), uid, gid)
    ensures n < m ==> FirstId(TopDown(c, n, uid, gid), m, Uid).None? && FirstId(TopDown(c, n, uid, gid), m, Gid).None?
    decreases n
  {
    if n != ROOT {
      TopDownIsAbout(c, c.nodes[n].parent, uid, gid, m);
    }
  }

  /** The entry stores everything that it can inherit. */
  ghost predicate Full(c: Tree, t: Tree, m: nat, kind: Kind, id: nat)
    requires c.WellFormed() && m in c.nodes && m in t.nodes
  {
    t.At(m, kind, id) ==
      c.At(m, kind, id).(rights := c.At(m, kind, id).rights.Join(CanInherit(c, m, kind, id)))
  }

  ghost predicate FullPath(c: Tree, t: Tree, n: nat, kind: Kind, id: nat)
    requires SameShape(c, t) && n in c.nodes
    decreases n
  {
    Full(c, t, n, kind, id) && (n == ROOT || FullPath(c, t, c.nodes[n].parent, kind, id))
  }

  lemma {:induction false} FullPathPassesOn(c: Tree, t: Tree, p: nat, kind: Kind, id: nat)
    requires SameShape(c, t) && p in c.nodes && FullPath(c, t, p, kind, id)
    ensures PassedOn(t, p, kind, id) == CanPassOn(c, p, kind, id)
    decreases p
  {
    if p != ROOT {
      FullPathPassesOn(c, t, c.nodes[p].parent, kind, id);
    }
  }

  lemma {:induction false} FullPathStays(c: Tree, t: Tree, t': Tree, p: nat, n: nat, kind: Kind, id: nat)
    requires SameShape(c, t) && SameShape(c, t') && p in c.nodes && p < n && FullPath(c, t, p, kind, id)
    requires forall m :: m in c.nodes && m != n ==> t'.nodes[m] == t.nodes[m]
    ensures FullPath(c, t', p, kind, id)
    decreases p
  {
    if p != ROOT {
      FullPathStays(c, t, t', c.nodes[p].parent, n, kind, id);
    }
  }

  lemma PullElsewhere(t: Tree, n: nat, uid: nat, gid: nat)
    requires t.WellFormed() && n in t.nodes
    ensures forall m :: m in t.nodes && m != n ==> Pull(t, n, uid, gid).nodes[m] == t.nodes[m]
  {}

  /** Afterwards every inode on the path stores all that it can inherit: the bound is reached. */
  lemma {:induction false} TopDownFills(c: Tree, n: nat, uid: nat, gid: nat, kind: Kind)
    requires Fresh(c) && n in c.nodes
    ensures var h := TopDown(c, n, uid, gid); var id := if kind == Uid then uid else gid;
      && About(h, c) && SameShape(c, After(c, h)) && FullPath(c, After(c, h), n, kind, id)
    decreases n
  {
    var id := if kind == Uid then uid else gid;
    TopDownIsAbout(c, n, uid, gid, n);
    RightsStayBounded(c, TopDown(c, n, uid, gid), kind, id);
    if n != ROOT {
      hide Pull, Walk, PassedOn, CanPassOn;
      var p := c.nodes[n].parent;
      var before := TopDown(c, p, uid, gid);
      TopDownFills(c, p, uid, gid, kind);
      TopDownIsAbout(c, p, uid, gid, n);
      var t := After(c, before);
      AskedIsCached(c, before, n);
      FirstIdIsStored(c, before, n, kind, id);
      PullAt(t, n, uid, gid, n, kind, id);
      FullPathPassesOn(c, t, p, kind, id);
      PullElsewhere(t, n, uid, gid);
      FullPathStays(c, t, Pull(t, n, uid, gid), p, n, kind, id);
    }
  }

  // When the stored rights agree with the recursive definition -----------------------------

  /** Whatever an inode can come to inherit, the definition entitles it to. */
  ghost predicate ResetsAreHarmless(c: Tree, kind: Kind, id: nat)
    requires c.WellFormed()
  {
    forall n :: n in c.nodes ==> CanInherit(c, n, kind, id).Within(Effective(c, n, kind, id))
  }

  lemma {:induction false} CannotPassOnMore(c: Tree, p: nat, kind: Kind, id: nat)
    requires c.WellFormed() && p in c.nodes
    requires forall a :: a in c.nodes ==> !(c.At(a, kind, id).reset && c.At(a, kind, id).cascade)
    ensures CanPassOn(c, p, kind, id) == PassedOn(c, p, kind, id)
    decreases p
  {
    if p != ROOT {
      CannotPassOnMore(c, c.nodes[p].parent, kind, id);
    }
  }

  /** No entry of this id has both flags: the simplest way to meet the condition. */
  lemma WithoutResetCascade(c: Tree, kind: Kind, id: nat)
    requires c.WellFormed()
    requires forall a :: a in c.nodes ==> !(c.At(a, kind, id).reset && c.At(a, kind, id).cascade)
    ensures ResetsAreHarmless(c, kind, id)
  {
    forall n | n in c.nodes
      ensures CanInherit(c, n, kind, id).Within(Effective(c, n, kind, id))
    {
      if n != ROOT {
        CannotPassOnMore(c, c.nodes[n].parent, kind, id);
      }
    }
  }

  /** In every history, an inode that was first asked about `id` stores exactly these rights for it. */
  ghost predicate AlwaysStores(c: Tree, n: nat, kind: Kind, id: nat, rights: Rights)
    requires Fresh(c) && n in c.nodes
  {
    forall h: History :: About(h, c) && FirstId(h, n, kind) == Some(id) ==>
      After(c, h).At(n, kind, id).rights == rights
  }

  /**
    What is stored at one inode depends on who was asked before, unless it can inherit nothing
    beyond the definition. The condition is exact for every right one may expect to be stored.
   */
  lemma StoredExactly(c: Tree, n: nat, kind: Kind, id: nat, rights: Rights)
    requires Fresh(c) && n in c.nodes && n != ROOT && rights.Within(Effective(c, n, kind, id))
    requires c.At(n, kind, id).rights.Within(rights)
    ensures AlwaysStores(c, n, kind, id, rights) <==>
      Effective(c, n, kind, id).Within(rights) && CanInherit(c, n, kind, id).Within(rights)
  {
    hide After, TopDown, PassedOn, CanPassOn;
    forall h: History | About(h, c) && FirstId(h, n, kind) == Some(id)
      ensures Effective(c, n, kind, id).Within(After(c, h).At(n, kind, id).rights)
      ensures After(c, h).At(n, kind, id).rights.Within(
                c.At(n, kind, id).rights.Join(CanInherit(c, n, kind, id)))
    {
      FirstIdIsStored(c, h, n, kind, id);
      RightsStayBounded(c, h, kind, id);
      assert Between(c, After(c, h), n, kind, id);
    }
    var top := TopDown(c, n, id, id);
    TopDownFills(c, n, id, id, kind);
    TopDownAsks(c, n, id, id);
    assert Full(c, After(c, top), n, kind, id);
  }

  lemma TopDownAsks(c: Tree, n: nat, uid: nat, gid: nat)
    requires c.WellFormed() && n in c.nodes && n != ROOT
    ensures FirstId(TopDown(c, n, uid, gid), n, Uid) == Some(uid)
    ensures FirstId(TopDown(c, n, uid, gid), n, Gid) == Some(gid)
  {
    TopDownIsAbout(c, c.nodes[n].parent, uid, gid, n);
  }

  /** Every inode always stores the recursive definition for the id it was first asked about. */
  ghost predicate AlwaysExact(c: Tree, kind: Kind, id: nat)
    requires Fresh(c)
  {
    forall n :: n in c.nodes && n != ROOT ==> AlwaysStores(c, n, kind, id, Effective(c, n, kind, id))
  }

  /**
    The memoised rights agree with the recursive definition in every history exactly when the
    configuration's "reset" and "cascade" entries are harmless.
   */
  lemma MemoisationExactly(c: Tree, kind: Kind, id: nat)
    requires Fresh(c)
    ensures AlwaysExact(c, kind, id) <==> ResetsAreHarmless(c, kind, id)
  {
    hide AlwaysStores, CanPassOn, PassedOn;
    forall n | n in c.nodes && n != ROOT
      ensures AlwaysStores(c, n, kind, id, Effective(c, n, kind, id)) <==>
        CanInherit(c, n, kind, id).Within(Effective(c, n, kind, id))
    {
      StoredExactly(c, n, kind, id, Effective(c, n, kind, id));
    }
  }

  // Answers --------------------------------------------------------------------------------

  function Definition(c: Tree, n: nat, uid: nat, gid: nat): Rights
    requires c.WellFormed() && n in c.nodes
  {
    Effective(c, n, Uid, uid).Join(Effective(c, n, Gid, gid))
  }

  function Own(c: Tree, n: nat, uid: nat, gid: nat): Rights
    requires n in c.nodes
  {
    c.At(n, Uid, uid).rights.Join(c.At(n, Gid, gid).rights)
  }

  function CanGet(c: Tree, n: nat, uid: nat, gid: nat): Rights
    requires c.WellFormed() && n in c.nodes
  {
    CanInherit(c, n, Uid, uid).Join(CanInherit(c, n, Gid, gid))
  }

  /** Inherited rights count only for the id that the inode was first asked about. */
  function IfFirst(first: Option<nat>, id: nat, inherited: Rights): Rights {
    if first == Some(id) then inherited else NO_RIGHTS
  }

  /** The least and the most that an answer can be, given the ids the inode was first asked about. */
  function AtLeast(c: Tree, n: nat, uid: nat, gid: nat, firstUid: Option<nat>, firstGid: Option<nat>): Rights
    requires c.WellFormed() && n in c.nodes
  {
    Own(c, n, uid, gid).Join(
      IfFirst(firstUid, uid, Inherited(c, n, Uid, uid)).Join(IfFirst(firstGid, gid, Inherited(c, n, Gid, gid))))
  }

  function AtMost(c: Tree, n: nat, uid: nat, gid: nat, firstUid: Option<nat>, firstGid: Option<nat>): Rights
    requires c.WellFormed() && n in c.nodes
  {
    Own(c, n, uid, gid).Join(
      IfFirst(firstUid, uid, CanInherit(c, n, Uid, uid)).Join(IfFirst(firstGid, gid, CanInherit(c, n, Gid, gid))))
  }

  lemma HalfOfAnswer(c: Tree, h: History, n: nat, kind: Kind, id: nat)
    requires Fresh(c) && About(h, c) && n in c.nodes
    ensures var own, stored := c.At(n, kind, id).rights, After(c, h).At(n, kind, id).rights;
      && own.Join(IfFirst(FirstId(h, n, kind), id, Inherited(c, n, kind, id))).Within(stored)
      && stored.Within(own.Join(IfFirst(FirstId(h, n, kind), id, CanInherit(c, n, kind, id))))
  {
    hide After, Inherited, CanInherit;
    FirstIdIsStored(c, h, n, kind, id);
    RightsStayBounded(c, h, kind, id);
    assert Between(c, After(c, h), n, kind, id);
  }

  /**
    The answer to any query after any history of queries by anyone, in any configuration: what is
    inherited counts only for ids that the inode was first asked about, and then lies between the
    recursive definition and all that can be inherited.
   */
  lemma AnswerExactly(c: Tree, h: History, n: nat, uid: nat, gid: nat)
    requires Fresh(c) && About(h, c) && n in c.nodes
    ensures var asked := Asked(h, n, uid, gid);
      var firstUid, firstGid := FirstId(asked, n, Uid), FirstId(asked, n, Gid);
      && AtLeast(c, n, uid, gid, firstUid, firstGid).Within(AnswerAfter(c, h, n, uid, gid))
      && AnswerAfter(c, h, n, uid, gid).Within(AtMost(c, n, uid, gid, firstUid, firstGid))
  {
    hide Pull, After, Inherited, CanInherit, FirstId;
    var asked := Asked(h, n, uid, gid);
    HalfOfAnswer(c, asked, n, Uid, uid);
    HalfOfAnswer(c, asked, n, Gid, gid);
  }

  ghost predicate AlwaysBy(h: History, uid: nat, gid: nat) {
    h.Asked? ==> h.uid == uid && h.gid == gid && AlwaysBy(h.before, uid, gid)
  }

  lemma {:induction false} FirstByThem(h: History, n: nat, uid: nat, gid: nat)
    requires AlwaysBy(h, uid, gid)
    ensures FirstId(h, n, Uid).Some? ==> FirstId(h, n, Uid) == Some(uid)
    ensures FirstId(h, n, Gid).Some? ==> FirstId(h, n, Gid) == Some(gid)
  {
    if h.Asked? {
      FirstByThem(h.before, n, uid, gid);
    }
  }

  lemma AskedNow(h: History, n: nat, uid: nat, gid: nat)
    requires n != ROOT
    ensures FirstId(Asked(h, n, uid, gid), n, Uid).Some? && FirstId(Asked(h, n, uid, gid), n, Gid).Some?
  {}

  /** Queries about any inodes in any order, all by this one caller, are answered by the definition. */
  ghost predicate OneCallerGetsDefinition(c: Tree, uid: nat, gid: nat)
    requires Fresh(c)
  {
    forall h: History, n: nat :: About(h, c) && AlwaysBy(h, uid, gid) && n in c.nodes ==>
      AnswerAfter(c, h, n, uid, gid) == Definition(c, n, uid, gid)
  }

  lemma OneCallerAnswer(c: Tree, h: History, n: nat, uid: nat, gid: nat)
    requires Fresh(c) && About(h, c) && n in c.nodes && AlwaysBy(h, uid, gid)
    ensures Definition(c, n, uid, gid).Within(AnswerAfter(c, h, n, uid, gid))
    ensures AnswerAfter(c, h, n, uid, gid).Within(Own(c, n, uid, gid).Join(CanGet(c, n, uid, gid)))
  {
    hide AnswerAfter, CanPassOn, PassedOn;
    AnswerExactly(c, h, n, uid, gid);
    FirstByThem(Asked(h, n, uid, gid), n, uid, gid);
    if n != ROOT {
      AskedNow(h, n, uid, gid);
    }
  }

  /** Asking from the root downwards gets all that can be inherited. */
  lemma TopDownAnswer(c: Tree, n: nat, uid: nat, gid: nat)
    requires Fresh(c) && n in c.nodes && n != ROOT
    ensures var h := TopDown(c, c.nodes[n].parent, uid, gid);
      && About(h, c) && AlwaysBy(h, uid, gid)
      && AnswerAfter(c, h, n, uid, gid) == Own(c, n, uid, gid).Join(CanGet(c, n, uid, gid))
  {
    hide After, CanPassOn, PassedOn;
    TopDownIsAbout(c, c.nodes[n].parent, uid, gid, n);
    TopDownFills(c, n, uid, gid, Uid);
    TopDownFills(c, n, uid, gid, Gid);
    assert Full(c, After(c, TopDown(c, n, uid, gid)), n, Uid, uid);
    assert Full(c, After(c, TopDown(c, n, uid, gid)), n, Gid, gid);
  }

  /**
    As long as only one caller asks, the memoisation cannot be noticed exactly when that caller can
    nowhere come to inherit more than the definition grants, through either of its ids.
   */
  lemma OneCallerIsTransparent(c: Tree, uid: nat, gid: nat)
    requires Fresh(c)
    ensures OneCallerGetsDefinition(c, uid, gid) <==>
      forall n :: n in c.nodes ==> CanGet(c, n, uid, gid).Within(Definition(c, n, uid, gid))
  {
    hide AnswerAfter, CanPassOn, PassedOn, TopDown;
    forall n | n in c.nodes && n != ROOT
      ensures var h := TopDown(c, c.nodes[n].parent, uid, gid);
        && About(h, c) && AlwaysBy(h, uid, gid)
        && AnswerAfter(c, h, n, uid, gid) == Own(c, n, uid, gid).Join(CanGet(c, n, uid, gid))
    {
      TopDownAnswer(c, n, uid, gid);
    }
    forall h: History, n: nat | About(h, c) && AlwaysBy(h, uid, gid) && n in c.nodes
      ensures Definition(c, n, uid, gid).Within(AnswerAfter(c, h, n, uid, gid))
      ensures AnswerAfter(c, h, n, uid, gid).Within(Own(c, n, uid, gid).Join(CanGet(c, n, uid, gid)))
    {
      OneCallerAnswer(c, h, n, uid, gid);
    }
  }

  /** The caller is answered by the definition whoever else asks, and in whatever order. */
  ghost predicate GetsDefinitionAmongOthers(c: Tree, uid: nat, gid: nat)
    requires Fresh(c)
  {
    forall h: History, n: nat :: About(h, c) && n in c.nodes ==>
      AnswerAfter(c, h, n, uid, gid) == Definition(c, n, uid, gid)
  }

  lemma AnswerToSecond(c: Tree, n: nat, uid: nat, gid: nat)
    requires Fresh(c) && n in c.nodes && n != ROOT
    ensures var h := Asked(Unasked, n, uid + 1, gid + 1);
      About(h, c) && AnswerAfter(c, h, n, uid, gid) == Own(c, n, uid, gid)
  {
    hide After, AnswerAfter, Inherited, CanInherit;
    var h := Asked(Unasked, n, uid + 1, gid + 1);
    assert About(Unasked, c);
    AnswerExactly(c, h, n, uid, gid);
    assert FirstId(h, n, Uid) == Some(uid + 1) && FirstId(h, n, Gid) == Some(gid + 1);
  }

  lemma AnswerAmongOthers(c: Tree, h: History, n: nat, uid: nat, gid: nat)
    requires Fresh(c) && About(h, c) && n in c.nodes
    ensures Own(c, n, uid, gid).Within(AnswerAfter(c, h, n, uid, gid))
    ensures AnswerAfter(c, h, n, uid, gid).Within(Own(c, n, uid, gid).Join(CanGet(c, n, uid, gid)))
  {
    hide AnswerAfter, Inherited, CanInherit;
    AnswerExactly(c, h, n, uid, gid);
  }

  /**
    With other callers around, the memoisation cannot be noticed exactly when there is nothing to
    inherit beyond what each inode grants itself: cascading works for the first caller only.
   */
  lemma OthersAreNoticed(c: Tree, uid: nat, gid: nat)
    requires Fresh(c)
    ensures GetsDefinitionAmongOthers(c, uid, gid) <==>
      forall n :: n in c.nodes ==> CanGet(c, n, uid, gid).Within(Own(c, n, uid, gid))
  {
    hide AnswerAfter, CanPassOn, PassedOn, TopDown;
    forall n | n in c.nodes && n != ROOT
      ensures var h := TopDown(c, c.nodes[n].parent, uid, gid);
        About(h, c) && AnswerAfter(c, h, n, uid, gid) == Own(c, n, uid, gid).Join(CanGet(c, n, uid, gid))
      ensures var h := Asked(Unasked, n, uid + 1, gid + 1);
        About(h, c) && AnswerAfter(c, h, n, uid, gid) == Own(c, n, uid, gid)
    {
      TopDownAnswer(c, n, uid, gid);
      AnswerToSecond(c, n, uid, gid);
    }
    forall h: History, n: nat | About(h, c) && n in c.nodes
      ensures Own(c, n, uid, gid).Within(AnswerAfter(c, h, n, uid, gid))
      ensures AnswerAfter(c, h, n, uid, gid).Within(Own(c, n, uid, gid).Join(CanGet(c, n, uid, gid)))
    {
      AnswerAmongOthers(c, h, n, uid, gid);
    }
    forall n | n in c.nodes
      ensures Definition(c, n, uid, gid).Within(Own(c, n, uid, gid).Join(CanGet(c, n, uid, gid)))
      ensures Own(c, n, uid, gid).Within(Definition(c, n, uid, gid))
    {
      assert About(Unasked, c);
      OneCallerAnswer(c, Unasked, n, uid, gid);
    }
  }

  const READ_CASCADES := Entry(Rights(true, false), true, false)

  /**
    A directory lets user 1000 read everything below it, but once user 0 has asked about a file
    there, user 1000 is denied what the definition grants.
   */
  lemma SecondCallerIsDenied()
    ensures var c := Tree(map[1 := Node(1, map[1000 := READ_CASCADES], map[], true, false),
                              2 := Node(1, map[], map[], false, false)]);
      var h := Asked(Unasked, 2, 0, 0);
      && Fresh(c) && About(h, c) && About(Unasked, c)
      && Definition(c, 2, 1000, 1000) == AnswerAfter(c, Unasked, 2, 1000, 1000) == Rights(true, false)
      && AnswerAfter(c, h, 2, 1000, 1000) == NO_RIGHTS
  {
    var c := Tree(map[1 := Node(1, map[1000 := READ_CASCADES], map[], true, false),
                      2 := Node(1, map[], map[], false, false)]);
    var h := Asked(Unasked, 2, 0, 0);
    assert c.WellFormed();
    assert PassedOn(c, 1, Uid, 1000) == CanPassOn(c, 1, Uid, 1000) == Rights(true, false);
    assert PassedOn(c, 1, Gid, 1000) == CanPassOn(c, 1, Gid, 1000) == NO_RIGHTS;
    assert About(Unasked, c);
    AnswerExactly(c, Unasked, 2, 1000, 1000);
    AnswerExactly(c, h, 2, 1000, 1000);
    assert FirstId(Asked(h, 2, 1000, 1000), 2, Uid) == FirstId(h, 2, Uid) == Some(0);
    assert FirstId(Asked(h, 2, 1000, 1000), 2, Gid) == FirstId(h, 2, Gid) == Some(0);
    assert FirstId(Asked(Unasked, 2, 1000, 1000), 2, Uid) == Some(1000);
    assert FirstId(Asked(Unasked, 2, 1000, 1000), 2, Gid) == Some(1000);
  }

  const NOTHING_FROM_ABOVE := Entry(NO_RIGHTS, true, true)

  /**
    Directory 2 is to stop what the root cascades to user 1000. Asked about file 3 alone, the user
    gets nothing, as the definition has it; after asking about directory 2, it may read the file.
   */
  lemma ResetCascadeLeaks()
    ensures var c := Tree(map[1 := Node(1, map[1000 := READ_CASCADES], map[], true, false),
                              2 := Node(1, map[1000 := NOTHING_FROM_ABOVE], map[], true, false),
                              3 := Node(2, map[], map[], false, false)]);
      var h := Asked(Unasked, 2, 1000, 1000);
      && Fresh(c) && About(h, c) && Definition(c, 3, 1000, 1000) == NO_RIGHTS
      && AnswerAfter(c, h, 3, 1000, 1000) == Rights(true, false)
  {
    var c := Tree(map[1 := Node(1, map[1000 := READ_CASCADES], map[], true, false),
                      2 := Node(1, map[1000 := NOTHING_FROM_ABOVE], map[], true, false),
                      3 := Node(2, map[], map[], false, false)]);
    assert c.WellFormed();
    assert CanPassOn(c, 1, Uid, 1000) == Rights(true, false) && CanPassOn(c, 1, Gid, 1000) == NO_RIGHTS;
    assert CanPassOn(c, 2, Uid, 1000) == Rights(true, false) && CanPassOn(c, 2, Gid, 1000) == NO_RIGHTS;
    assert PassedOn(c, 2, Uid, 1000) == NO_RIGHTS;
    assert PassedOn(c, 1, Gid, 1000) == NO_RIGHTS;
    assert TopDown(c, 1, 1000, 1000) == Unasked;
    TopDownAnswer(c, 3, 1000, 1000);
  }

  // The documented meaning of "reset" ------------------------------------------------------

  /**
    What the documentation says: "reset" keeps out inherited rights at the directory that has it,
    too, and is ignored at files.
   */
  function Documented(c: Tree, n: nat, kind: Kind, id: nat): Rights
    requires c.WellFormed() && n in c.nodes
  {
    if c.nodes[n].isDirectory && c.At(n, kind, id).reset then c.At(n, kind, id).rights
    else Effective(c, n, kind, id)
  }

  /** There is no "reset" to observe at this inode, or nothing to inherit that it would keep out. */
  ghost predicate ResetMakesNoDifference(c: Tree, n: nat, kind: Kind, id: nat)
    requires c.WellFormed() && n in c.nodes
  {
    !c.nodes[n].isDirectory || !c.At(n, kind, id).reset
    || Inherited(c, n, kind, id).Within(c.At(n, kind, id).rights)
  }

  lemma StoredBetween(c: Tree, h: History, n: nat, kind: Kind, id: nat)
    requires Fresh(c) && About(h, c) && n in c.nodes && FirstId(h, n, kind) == Some(id)
    ensures Effective(c, n, kind, id).Within(After(c, h).At(n, kind, id).rights)
    ensures After(c, h).At(n, kind, id).rights.Within(
              c.At(n, kind, id).rights.Join(CanInherit(c, n, kind, id)))
  {
    hide After, FirstId, Inherited, CanInherit;
    FirstIdIsStored(c, h, n, kind, id);
    RightsStayBounded(c, h, kind, id);
    assert Between(c, After(c, h), n, kind, id);
  }

  /**
    The walk never looks at the inode's own "reset": in no history are the documented rights stored
    at a directory where it makes a difference.
   */
  lemma OwnResetIsIgnored(c: Tree, h: History, n: nat, kind: Kind, id: nat)
    requires Fresh(c) && About(h, c) && n in c.nodes && FirstId(h, n, kind) == Some(id)
    ensures !ResetMakesNoDifference(c, n, kind, id) ==>
      After(c, h).At(n, kind, id).rights != Documented(c, n, kind, id)
  {
    hide After, FirstId, Inherited;
    StoredBetween(c, h, n, kind, id);
  }

  /** Where "reset" and "cascade" are harmless, that is the only difference from the documentation. */
  lemma OnlyOwnResetDiffers(c: Tree, h: History, n: nat, kind: Kind, id: nat)
    requires Fresh(c) && About(h, c) && n in c.nodes && FirstId(h, n, kind) == Some(id)
    requires ResetsAreHarmless(c, kind, id)
    ensures After(c, h).At(n, kind, id).rights == Documented(c, n, kind, id) <==>
      ResetMakesNoDifference(c, n, kind, id)
  {
    hide After, FirstId, Inherited, CanInherit;
    StoredBetween(c, h, n, kind, id);
  }

  /** With no assumption: the documented rights are always stored exactly when nothing else can arrive. */
  lemma DocumentedExactly(c: Tree, n: nat, kind: Kind, id: nat)
    requires Fresh(c) && n in c.nodes && n != ROOT
    ensures AlwaysStores(c, n, kind, id, Documented(c, n, kind, id)) <==>
      CanInherit(c, n, kind, id).Within(Documented(c, n, kind, id))
  {
    hide AlwaysStores;
    StoredExactly(c, n, kind, id, Documented(c, n, kind, id));
    assert About(Unasked, c);
    RightsStayBounded(c, Unasked, kind, id);
    InheritedBounded(c, c, n, kind, id);
  }

  const RESETS := Entry(NO_RIGHTS, false, true)

  /** A directory with "reset" that its parent's rights reach all the same. */
  lemma ResetDirectoryInherits()
    ensures var c := Tree(map[1 := Node(1, map[1000 := READ_CASCADES], map[], true, false),
                              2 := Node(1, map[1000 := RESETS], map[], true, false)]);
      && Fresh(c) && About(Unasked, c)
      && Documented(c, 2, Uid, 1000) == Documented(c, 2, Gid, 1000) == NO_RIGHTS
      && AnswerAfter(c, Unasked, 2, 1000, 1000) == Rights(true, false)
  {
    var c := Tree(map[1 := Node(1, map[1000 := READ_CASCADES], map[], true, false),
                      2 := Node(1, map[1000 := RESETS], map[], true, false)]);
    assert c.WellFormed();
    assert CanPassOn(c, 1, Uid, 1000) == Rights(true, false) && CanPassOn(c, 1, Gid, 1000) == NO_RIGHTS;
    assert PassedOn(c, 1, Gid, 1000) == NO_RIGHTS;
    assert TopDown(c, 1, 1000, 1000) == Unasked;
    TopDownAnswer(c, 2, 1000, 1000);
  }
}
