/** Reading and writing the configuration step by step, and the file system while it is built. */
module FileSys {
  import opened Words
  import opened Access
  import opened Config

  // Access entries -------------------------------------------------------------------------

  method ReadAccess(access: seq<Token>) returns (entry: Entry)
    ensures entry == WithTokens(NO_ENTRY, access)
  {
    entry := NO_ENTRY;
    var k := 0;
    while k < |access|
      invariant k <= |access|
      invariant WithTokens(entry, access[k..]) == WithTokens(NO_ENTRY, access)
    {
      assert access[k..][1..] == access[k + 1..];
      entry := WithToken(entry, access[k]);
      k := k + 1;
    }
  }

  method ReadGrants(grants: seq<Grant>) returns (entries: map<nat, Entry>)
    ensures entries == WithGrants(map[], grants)
  {
    entries := map[];
    var k := 0;
    while k < |grants|
      invariant k <= |grants|
      invariant WithGrants(entries, grants[k..]) == WithGrants(map[], grants)
    {
      assert grants[k..][1..] == grants[k + 1..];
      var entry := ReadAccess(grants[k].access);
      if grants[k].id !in entries {
        entries := entries[grants[k].id := entry];
      }
      k := k + 1;
    }
  }

  method LeastKey(keys: set<nat>) returns (k: nat)
    requires keys != {}
    ensures k in keys && forall j :: j in keys ==> k <= j
  {
    LeastExists(keys);
    k :| k in keys && forall j :: j in keys ==> k <= j;
  }

  method WriteGrants(entries: map<nat, Entry>) returns (grants: seq<Grant>)
    ensures grants == Grants(entries)
    ensures WithGrants(map[], grants) == entries
  {
    hide *;
    grants := [];
    var rest := entries;
    while rest != map[]
      invariant grants + Grants(rest) == Grants(entries)
      decreases rest.Keys
    {
      var k := LeastKey(rest.Keys);
      GrantsFromLeast(rest, k);
      grants := grants + [Grant(k, Tokens(rest[k]))];
      rest := rest - {k};
    }
    NoGrants();
    GrantsReadBack(entries);
  }

  lemma NoGrants()
    ensures Grants(map[]) == []
  {}

  method WriteConfig(i: Inode) returns (c: Spec)
    ensures c == ToConfig(i)
    ensures Linked(i) ==> Written(c, i, i.parent)
    decreases i
  {
    hide Grants, WithGrants, Written, Linked;
    LinkedIsWritten(i);
    var uid := WriteGrants(i.uid);
    var gid := WriteGrants(i.gid);
    var entries: seq<Spec> := [];
    if i.isDirectory {
      var k := 0;
      while k < |i.entries|
        invariant k <= |i.entries|
        invariant entries + ToConfigs(i.entries[k..]) == ToConfigs(i.entries)
      {
        assert i.entries[k..][0] == i.entries[k] && i.entries[k..][1..] == i.entries[k + 1..];
        var child := WriteConfig(i.entries[k]);
        entries := entries + [child];
        k := k + 1;
      }
    }
    c := Spec(i.name, uid, gid, i.isDirectory, entries, None, Some(Numbers(i.number, i.parent)));
  }

  // Building -------------------------------------------------------------------------------

  class Builder {
    var nextInodeNr: nat
    var inodeEntries: map<nat, Node>

    function View(): Numbering
      reads this
    {
      Numbering(nextInodeNr, inodeEntries)
    }

    /** Exactly the numbers assigned so far resolve, and every inode but the root to a smaller parent. */
    ghost predicate Complete()
      reads this
    {
      && Tree(inodeEntries).WellFormed()
      && (forall n: nat :: n in inodeEntries <==> ROOT <= n < nextInodeNr)
    }

    constructor ()
      ensures View() == NEW_NUMBERING
    {
      nextInodeNr := ROOT;
      inodeEntries := map[];
    }

    method GetNextInode() returns (number: nat)
      modifies `nextInodeNr
      ensures number == old(nextInodeNr) && nextInodeNr == number + 1
    {
      number := nextInodeNr;
      nextInodeNr := nextInodeNr + 1;
    }

    method RegisterInode(number: nat, node: Node)
      modifies `inodeEntries
      ensures inodeEntries == Registered(old(inodeEntries), number, node)
    {
      if number !in inodeEntries {
        inodeEntries := inodeEntries[number := node];
      }
    }

    /** Builds a file or a directory with everything below it. */
    method NewEntry(c: Spec, parent: nat) returns (inode: Inode)
      modifies this
      ensures Built(inode, View()) == Build(c, parent, old(View()))
      ensures Realises(inode, c)
      decreases c
    {
      BuildRealises(c, parent, View());
      hide Realises;
      var uid := ReadGrants(c.uidAccess);
      var gid := ReadGrants(c.gidAccess);
      var number := GetNextInode();
      ghost var numbered := View();
      var entries: seq<Inode> := [];
      if c.isDirectory {
        var k := 0;
        while k < |c.entries|
          invariant k <= |c.entries|
          invariant BuildAll(c.entries[k..], number, View(), entries) == BuildAll(c.entries, number, numbered, [])
        {
          assert c.entries[k..][0] == c.entries[k] && c.entries[k..][1..] == c.entries[k + 1..];
          var child := NewEntry(c.entries[k], number);
          entries := Insert(entries, child);
          k := k + 1;
        }
      }
      var queueLength := if c.queueLength.Some? then c.queueLength.value else DEFAULT_QUEUE_LENGTH;
      RegisterInode(number, Node(parent, uid, gid, c.isDirectory, false));
      inode := Inode(c.name, number, parent, uid, gid, c.isDirectory, entries, queueLength);
    }

    /** The whole file system; none when the root has no entries element. */
    method BuildFileSystem(root: Spec) returns (tree: Option<Inode>)
      requires View() == NEW_NUMBERING
      modifies this
      ensures tree.Some? <==> root.isDirectory
      ensures tree.Some? ==> FileSystem(root) == Some(Built(tree.value, View()))
      ensures tree.Some? ==> Complete()
    {
      if !root.isDirectory {
        return None;
      }
      BuiltTreeIsWellFormed(root);
      var inode := NewEntry(root, ROOT);
      tree := Some(inode);
    }

    /** Looks up an inode; the source ends the program when there is none. */
    method LookupInode(number: nat) returns (node: Option<Node>)
      ensures node.Some? ==> number in inodeEntries && node.value == inodeEntries[number]
      ensures node.None? ==> number !in inodeEntries
      ensures Complete() ==> (node.Some? <==> ROOT <= number < nextInodeNr)
      ensures Complete() && node.Some? && number != ROOT ==> ROOT <= node.value.parent < number
    {
      node := if number in inodeEntries then Some(inodeEntries[number]) else None;
    }
  }
}
