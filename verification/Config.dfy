/** Building the inode tree from its configuration, and writing the configuration back. */
module Config {
  import opened Words
  import opened Access

  // Access maps ----------------------------------------------------------------------------

  datatype Token = Read | Write | Cascade | Reset | Unknown(text: string)

  datatype Grant = Grant(id: nat, access: seq<Token>)

  function WithToken(entry: Entry, token: Token): Entry {
    match token
    case Read => entry.(rights := entry.rights.(read := true))
    case Write => entry.(rights := entry.rights.(write := true))
    case Cascade => entry.(cascade := true)
    case Reset => entry.(reset := true)
    case Unknown(_) => entry
  }

  /** Tokens set flags, in any order; unknown ones are ignored. */
  function WithTokens(entry: Entry, access: seq<Token>): Entry
    decreases |access|
  {
    if access == [] then entry else WithTokens(WithToken(entry, access[0]), access[1..])
  }

  function TokenIf(flag: bool, token: Token): seq<Token> {
    if flag then [token] else []
  }

  function Tokens(entry: Entry): seq<Token> {
    TokenIf(entry.rights.read, Read) + TokenIf(entry.rights.write, Write)
    + TokenIf(entry.cascade, Cascade) + TokenIf(entry.reset, Reset)
  }

  /** Adds the grants to the map; the first grant for an id wins. */
  function WithGrants(entries: map<nat, Entry>, grants: seq<Grant>): map<nat, Entry>
    decreases |grants|
  {
    if grants == [] then entries
    else
      var g := grants[0];
      WithGrants(if g.id in entries then entries else entries[g.id := WithTokens(NO_ENTRY, g.access)], grants[1..])
  }

  ghost function Least(keys: set<nat>): (k: nat)
    requires keys != {}
    ensures k in keys && forall j :: j in keys ==> k <= j
    decreases |keys|
  {
    var some :| some in keys;
    if keys == {some} then some
    else
      var least := Least(keys - {some});
      assert forall j :: j in keys ==> j == some || j in keys - {some};
      if some < least then some else least
  }

  /** The grants of a map, in the order of their ids. */
  ghost function Grants(entries: map<nat, Entry>): seq<Grant>
    decreases entries.Keys
  {
    if entries == map[] then []
    else
      var k := Least(entries.Keys);
      [Grant(k, Tokens(entries[k]))] + Grants(entries - {k})
  }

  lemma LeastExists(keys: set<nat>)
    requires keys != {}
    ensures exists k :: k in keys && forall j :: j in keys ==> k <= j
  {
    var k := Least(keys);
    assert k in keys && forall j :: j in keys ==> k <= j;
  }

  lemma GrantsFromLeast(entries: map<nat, Entry>, k: nat)
    requires k in entries && forall j :: j in entries ==> k <= j
    ensures Grants(entries) == [Grant(k, Tokens(entries[k]))] + Grants(entries - {k})
  {
    assert Least(entries.Keys) == k;
  }

  lemma {:induction false} WithTokensAppend(entry: Entry, a: seq<Token>, b: seq<Token>)
    ensures WithTokens(entry, a + b) == WithTokens(WithTokens(entry, a), b)
    decreases |a|
  {
    if a == [] {
      assert a + b == b;
    } else {
      assert (a + b)[1..] == a[1..] + b;
      WithTokensAppend(WithToken(entry, a[0]), a[1..], b);
    }
  }

  lemma TokensRoundTrip(entry: Entry)
    ensures WithTokens(NO_ENTRY, Tokens(entry)) == entry
  {
    var r := if entry.rights.read then [Read] else [];
    var w := if entry.rights.write then [Write] else [];
    var c := if entry.cascade then [Cascade] else [];
    WithTokensAppend(NO_ENTRY, r + w + c, if entry.reset then [Reset] else []);
    WithTokensAppend(NO_ENTRY, r + w, c);
    WithTokensAppend(NO_ENTRY, r, w);
  }

  lemma {:induction false} GrantsRoundTrip(front: map<nat, Entry>, entries: map<nat, Entry>)
    requires front.Keys !! entries.Keys
    ensures WithGrants(front, Grants(entries)) == front + entries
    decreases entries.Keys
  {
    if entries == map[] {
      assert front + entries == front;
    } else {
      var k := Least(entries.Keys);
      var gs := Grants(entries);
      TokensRoundTrip(entries[k]);
      assert gs[0] == Grant(k, Tokens(entries[k])) && gs[1..] == Grants(entries - {k});
      var front' := front[k := entries[k]];
      GrantsRoundTrip(front', entries - {k});
      assert front' + (entries - {k}) == front + entries;
    }
  }

  /** The flags of an entry are the tokens that occur, wherever and however often. */
  lemma {:induction false} TokensSetFlags(entry: Entry, access: seq<Token>)
    ensures var result := WithTokens(entry, access);
      && (result.rights.read <==> entry.rights.read || Read in access)
      && (result.rights.write <==> entry.rights.write || Write in access)
      && (result.cascade <==> entry.cascade || Cascade in access)
      && (result.reset <==> entry.reset || Reset in access)
    decreases |access|
  {
    if access != [] {
      TokensSetFlags(WithToken(entry, access[0]), access[1..]);
      assert access == [access[0]] + access[1..];
    }
  }

  /** `k` is the position of the first grant for `id`. */
  ghost predicate FirstGrant(grants: seq<Grant>, id: nat, k: nat) {
    k < |grants| && grants[k].id == id && forall j :: 0 <= j < k ==> grants[j].id != id
  }

  /** Of several grants for one id only the first counts. */
  lemma {:induction false} FirstGrantWins(entries: map<nat, Entry>, grants: seq<Grant>, id: nat, k: nat)
    requires FirstGrant(grants, id, k)
    ensures id in WithGrants(entries, grants)
    ensures WithGrants(entries, grants)[id] ==
      if id in entries then entries[id] else WithTokens(NO_ENTRY, grants[k].access)
    decreases |grants|
  {
    var g := grants[0];
    var entries' := if g.id in entries then entries else entries[g.id := WithTokens(NO_ENTRY, g.access)];
    if k > 0 {
      FirstGrantWins(entries', grants[1..], id, k - 1);
    } else {
      GrantsKeep(entries', grants[1..], id);
    }
  }

  lemma {:induction false} GrantsKeep(entries: map<nat, Entry>, grants: seq<Grant>, id: nat)
    requires id in entries
    ensures id in WithGrants(entries, grants) && WithGrants(entries, grants)[id] == entries[id]
    decreases |grants|
  {
    if grants != [] {
      var g := grants[0];
      GrantsKeep(if g.id in entries then entries else entries[g.id := WithTokens(NO_ENTRY, g.access)], grants[1..], id);
    }
  }

  lemma GrantsReadBack(entries: map<nat, Entry>)
    ensures WithGrants(map[], Grants(entries)) == entries
  {
    GrantsRoundTrip(map[], entries);
    assert map[] + entries == entries;
  }

  /** The entry has exactly the flags that the tokens name. */
  ghost predicate Reflects(entry: Entry, access: seq<Token>) {
    && (entry.rights.read <==> Read in access) && (entry.rights.write <==> Write in access)
    && (entry.cascade <==> Cascade in access) && (entry.reset <==> Reset in access)
  }

  ghost predicate Names(grants: seq<Grant>, id: nat) {
    exists k :: 0 <= k < |grants| && grants[k].id == id
  }

  /** The map has the ids that the grants name, each with the flags of the first grant for it. */
  ghost predicate MapReflects(entries: map<nat, Entry>, grants: seq<Grant>) {
    && (forall id: nat :: id in entries <==> Names(grants, id))
    && (forall id: nat, k: nat :: FirstGrant(grants, id, k) && id in entries ==>
          Reflects(entries[id], grants[k].access))
  }

  lemma {:induction false} GrantsNamed(entries: map<nat, Entry>, grants: seq<Grant>, id: nat)
    ensures id in WithGrants(entries, grants) <==> id in entries || Names(grants, id)
    decreases |grants|
  {
    if grants != [] {
      var g := grants[0];
      var entries' := if g.id in entries then entries else entries[g.id := WithTokens(NO_ENTRY, g.access)];
      GrantsNamed(entries', grants[1..], id);
      if Names(grants[1..], id) {
        var k :| 0 <= k < |grants| - 1 && grants[1..][k].id == id;
        assert grants[k + 1].id == id;
      }
      if Names(grants, id) && g.id != id {
        var k :| 0 <= k < |grants| && grants[k].id == id;
        assert grants[1..][k - 1].id == id;
      }
    }
  }

  /** What a map built from grants is, said from the grants alone. */
  lemma GrantsReflected(grants: seq<Grant>)
    ensures MapReflects(WithGrants(map[], grants), grants)
  {
    hide WithGrants, WithTokens;
    forall id: nat
      ensures id in WithGrants(map[], grants) <==> Names(grants, id)
    {
      GrantsNamed(map[], grants, id);
    }
    forall id: nat, k: nat | FirstGrant(grants, id, k)
      ensures id in WithGrants(map[], grants) && Reflects(WithGrants(map[], grants)[id], grants[k].access)
    {
      FirstGrantWins(map[], grants, id, k);
      TokensSetFlags(NO_ENTRY, grants[k].access);
    }
  }

  // The tree -------------------------------------------------------------------------------

  datatype Numbers = Numbers(inode: nat, parent: nat)

  /** An entry of the configuration; what it says about inode numbers is never read. */
  datatype Spec = Spec(name: string, uidAccess: seq<Grant>, gidAccess: seq<Grant>,
                       isDirectory: bool, entries: seq<Spec>,
                       queueLength: Option<nat>, numbers: Option<Numbers>)

  const DEFAULT_QUEUE_LENGTH: nat := 16777216

  datatype Inode = Inode(name: string, number: nat, parent: nat,
                         uid: map<nat, Entry>, gid: map<nat, Entry>,
                         isDirectory: bool, entries: seq<Inode>, queueLength: nat)

  /** Names are kept in lexicographic order. */
  predicate Less(a: string, b: string) {
    b != [] && (a == [] || a[0] < b[0] || (a[0] == b[0] && Less(a[1..], b[1..])))
  }

  lemma {:induction false} LessTransitive(a: string, b: string, c: string)
    requires Less(a, b) && Less(b, c)
    ensures Less(a, c)
    decreases |a|
  {
    if a != [] && a[0] == b[0] == c[0] {
      LessTransitive(a[1..], b[1..], c[1..]);
    }
  }

  lemma {:induction false} LessIsStrict(a: string)
    ensures !Less(a, a)
    decreases |a|
  {
    if a != [] {
      LessIsStrict(a[1..]);
    }
  }

  lemma {:induction false} LessIsTotal(a: string, b: string)
    ensures a == b || Less(a, b) || Less(b, a)
    decreases |a|
  {
    if a != [] && b != [] {
      LessIsTotal(a[1..], b[1..]);
      assert a == [a[0]] + a[1..] && b == [b[0]] + b[1..];
    }
  }

  /** Inserts by name; an inode whose name is taken is not inserted. */
  function Insert(entries: seq<Inode>, i: Inode): seq<Inode> {
    if entries == [] then [i]
    else if entries[0].name == i.name then entries
    else if Less(i.name, entries[0].name) then [i] + entries
    else [entries[0]] + Insert(entries[1..], i)
  }

  function Lookup(entries: seq<Inode>, name: string): Option<Inode> {
    if entries == [] then None
    else if entries[0].name == name then Some(entries[0])
    else Lookup(entries[1..], name)
  }

  /** The next number to assign, and the table of registered inodes. */
  datatype Numbering = Numbering(next: nat, table: map<nat, Node>)

  /** Registering never replaces an inode that is already in the table. */
  function Registered(table: map<nat, Node>, number: nat, node: Node): map<nat, Node> {
    if number in table then table else table[number := node]
  }

  datatype Built = Built(inode: Inode, numbering: Numbering)

  datatype BuiltEntries = BuiltEntries(entries: seq<Inode>, numbering: Numbering)

  /** Builds one entry: it takes a number before its children do, and is registered after them. */
  function Build(c: Spec, parent: nat, numbering: Numbering): Built
    decreases c, 1
  {
    var number := numbering.next;
    var uid := WithGrants(map[], c.uidAccess);
    var gid := WithGrants(map[], c.gidAccess);
    var numbered := numbering.(next := number + 1);
    var children := if c.isDirectory then BuildAll(c.entries, number, numbered, []) else BuiltEntries([], numbered);
    var queueLength := if c.queueLength.Some? then c.queueLength.value else DEFAULT_QUEUE_LENGTH;
    Built(Inode(c.name, number, parent, uid, gid, c.isDirectory, children.entries, queueLength),
          children.numbering.(
            table := Registered(children.numbering.table, number, Node(parent, uid, gid, c.isDirectory, false))))
  }

  /** The loop over a directory's entries, after `done` were inserted. */
  function BuildAll(cs: seq<Spec>, parent: nat, numbering: Numbering, done: seq<Inode>): BuiltEntries
    decreases cs, 0
  {
    if cs == [] then BuiltEntries(done, numbering)
    else
      var first := Build(cs[0], parent, numbering);
      BuildAll(cs[1..], parent, first.numbering, Insert(done, first.inode))
  }

  const NEW_NUMBERING := Numbering(ROOT, map[])

  /** The file system of a configuration; a root without entries ends the program. */
  function FileSystem(root: Spec): Option<Built> {
    if root.isDirectory then Some(Build(root, ROOT, NEW_NUMBERING)) else None
  }

  // Numbering ------------------------------------------------------------------------------

  /** Exactly the numbers in `[from, to)` were added, each with a smaller parent from there or `parent`. */
  ghost predicate Numbered(before: map<nat, Node>, after: map<nat, Node>, from: nat, to: nat, parent: nat) {
    && from <= to
    && (forall n: nat :: n in after <==> n in before || from <= n < to)
    && (forall n: nat :: n in before && !(from <= n < to) ==> after[n] == before[n])
    && (forall n: nat :: from <= n < to ==>
          var p := after[n].parent;
          (p == parent || (from <= p < n)) && !after[n].cached)
  }

  ghost predicate Unassigned(numbering: Numbering) {
    forall n :: n in numbering.table ==> n < numbering.next
  }

  lemma {:induction false} BuildNumbers(c: Spec, parent: nat, numbering: Numbering)
    requires Unassigned(numbering)
    ensures var built := Build(c, parent, numbering);
      && numbering.next < built.numbering.next
      && built.inode.number == numbering.next && built.inode.parent == parent
      && Numbered(numbering.table, built.numbering.table, numbering.next, built.numbering.next, parent)
      && built.numbering.table[numbering.next].parent == parent
    decreases c, 1
  {
    if c.isDirectory {
      BuildAllNumbers(c.entries, numbering.next, numbering.(next := numbering.next + 1), []);
    }
  }

  lemma {:induction false} BuildAllNumbers(cs: seq<Spec>, parent: nat, numbering: Numbering, done: seq<Inode>)
    requires Unassigned(numbering)
    ensures var built := BuildAll(cs, parent, numbering, done);
      Numbered(numbering.table, built.numbering.table, numbering.next, built.numbering.next, parent)
    decreases cs, 0
  {
    if cs != [] {
      var first := Build(cs[0], parent, numbering);
      BuildNumbers(cs[0], parent, numbering);
      BuildAllNumbers(cs[1..], parent, first.numbering, Insert(done, first.inode));
    }
  }

  /**
    A built tree is numbered without gaps from the root's 1 on, every number resolves in the table,
    and every other inode has a smaller, registered parent: upward walks end at the root.
   */
  lemma BuiltTreeIsWellFormed(root: Spec)
    requires FileSystem(root).Some?
    ensures var built := FileSystem(root).value;
      && built.inode.number == ROOT
      && (forall n: nat :: n in built.numbering.table <==> ROOT <= n < built.numbering.next)
      && Fresh(Tree(built.numbering.table))
  {
    BuildNumbers(root, ROOT, NEW_NUMBERING);
  }

  /** The table holds every inode of the tree, with its maps and its place in the tree. */
  ghost predicate Placed(i: Inode, table: map<nat, Node>)
    decreases i, 1
  {
    && i.number in table && table[i.number] == Node(i.parent, i.uid, i.gid, i.isDirectory, false)
    && AllPlaced(i.entries, i.number, table)
  }

  ghost predicate AllPlaced(entries: seq<Inode>, parent: nat, table: map<nat, Node>)
    decreases entries, 0
  {
    entries != [] ==>
      entries[0].parent == parent && Placed(entries[0], table) && AllPlaced(entries[1..], parent, table)
  }

  ghost predicate Extends(table: map<nat, Node>, table': map<nat, Node>) {
    forall n :: n in table ==> n in table' && table'[n] == table[n]
  }

  lemma {:induction false} PlacedStill(entries: seq<Inode>, parent: nat, table: map<nat, Node>, table': map<nat, Node>)
    requires AllPlaced(entries, parent, table) && Extends(table, table')
    ensures AllPlaced(entries, parent, table')
    decreases entries
  {
    if entries != [] {
      PlacedStill(entries[0].entries, entries[0].number, table, table');
      PlacedStill(entries[1..], parent, table, table');
    }
  }

  lemma {:induction false} InsertPlaced(entries: seq<Inode>, i: Inode, table: map<nat, Node>)
    requires AllPlaced(entries, i.parent, table) && Placed(i, table)
    ensures AllPlaced(Insert(entries, i), i.parent, table)
    decreases |entries|
  {
    if entries != [] && entries[0].name != i.name && !Less(i.name, entries[0].name) {
      InsertPlaced(entries[1..], i, table);
    }
  }

  /** Directory entries and the table of inodes agree. */
  lemma {:induction false} BuildIsPlaced(c: Spec, parent: nat, numbering: Numbering)
    requires Unassigned(numbering)
    ensures var built := Build(c, parent, numbering);
      Placed(built.inode, built.numbering.table)
    decreases c, 1
  {
    if c.isDirectory {
      var number := numbering.next;
      var numbered := numbering.(next := number + 1);
      BuildAllIsPlaced(c.entries, number, numbered, []);
      BuildAllNumbers(c.entries, number, numbered, []);
      var children := BuildAll(c.entries, number, numbered, []);
      PlacedStill(children.entries, number, children.numbering.table,
                  Build(c, parent, numbering).numbering.table);
    }
  }

  lemma {:induction false} BuildAllIsPlaced(cs: seq<Spec>, parent: nat, numbering: Numbering, done: seq<Inode>)
    requires Unassigned(numbering) && AllPlaced(done, parent, numbering.table)
    ensures var built := BuildAll(cs, parent, numbering, done);
      AllPlaced(built.entries, parent, built.numbering.table)
    decreases cs, 0
  {
    if cs != [] {
      var first := Build(cs[0], parent, numbering);
      BuildNumbers(cs[0], parent, numbering);
      BuildIsPlaced(cs[0], parent, numbering);
      PlacedStill(done, parent, numbering.table, first.numbering.table);
      InsertPlaced(done, first.inode, first.numbering.table);
      BuildAllIsPlaced(cs[1..], parent, first.numbering, Insert(done, first.inode));
    }
  }

  /** How often a number occurs in the tree. */
  function Uses(i: Inode, n: nat): nat
    decreases i, 1
  {
    (if i.number == n then 1 else 0) + AllUses(i.entries, n)
  }

  function AllUses(entries: seq<Inode>, n: nat): nat
    decreases entries, 0
  {
    if entries == [] then 0 else Uses(entries[0], n) + AllUses(entries[1..], n)
  }

  lemma {:induction false} InsertUses(entries: seq<Inode>, i: Inode, n: nat)
    ensures AllUses(Insert(entries, i), n) <= AllUses(entries, n) + Uses(i, n)
    decreases |entries|
  {
    if entries != [] && entries[0].name != i.name && !Less(i.name, entries[0].name) {
      InsertUses(entries[1..], i, n);
    }
  }

  /** No two inodes of a tree share a number, and all numbers come from the range it was given. */
  lemma {:induction false} NumbersAreDistinct(c: Spec, parent: nat, numbering: Numbering, n: nat)
    requires Unassigned(numbering)
    ensures var built := Build(c, parent, numbering);
      Uses(built.inode, n) <= if numbering.next <= n < built.numbering.next then 1 else 0
    decreases c, 1
  {
    if c.isDirectory {
      BuildAllNumbers(c.entries, numbering.next, numbering.(next := numbering.next + 1), []);
      AllDistinct(c.entries, numbering.next, numbering.(next := numbering.next + 1), [], n);
    }
  }

  lemma {:induction false} AllDistinct(cs: seq<Spec>, parent: nat, numbering: Numbering, done: seq<Inode>, n: nat)
    requires Unassigned(numbering)
    ensures var built := BuildAll(cs, parent, numbering, done);
      AllUses(built.entries, n) <= AllUses(done, n) + if numbering.next <= n < built.numbering.next then 1 else 0
    decreases cs, 0
  {
    if cs != [] {
      var first := Build(cs[0], parent, numbering);
      BuildNumbers(cs[0], parent, numbering);
      NumbersAreDistinct(cs[0], parent, numbering, n);
      InsertUses(done, first.inode, n);
      BuildAllNumbers(cs[1..], parent, first.numbering, Insert(done, first.inode));
      AllDistinct(cs[1..], parent, first.numbering, Insert(done, first.inode), n);
    }
  }

  // Directories ----------------------------------------------------------------------------

  /** Strictly increasing names, in this directory. */
  predicate Sorted(entries: seq<Inode>) {
    |entries| <= 1 || (Less(entries[0].name, entries[1].name) && Sorted(entries[1..]))
  }

  /** Every directory from here down is sorted. */
  predicate Canonical(i: Inode) {
    Sorted(i.entries) && AllCanonical(i.entries) && (i.isDirectory || i.entries == [])
  }

  predicate AllCanonical(entries: seq<Inode>) {
    entries == [] || (Canonical(entries[0]) && AllCanonical(entries[1..]))
  }

  lemma {:induction false} InsertSorted(entries: seq<Inode>, i: Inode)
    requires Sorted(entries)
    ensures Sorted(Insert(entries, i)) && Insert(entries, i) != []
    ensures entries != [] ==> Insert(entries, i)[0].name in {entries[0].name, i.name}
    decreases |entries|
  {
    if entries != [] && entries[0].name != i.name {
      LessIsTotal(entries[0].name, i.name);
      InsertSorted(entries[1..], i);
    }
  }

  lemma {:induction false} InsertCanonical(entries: seq<Inode>, i: Inode)
    requires AllCanonical(entries) && Canonical(i)
    ensures AllCanonical(Insert(entries, i))
    decreases |entries|
  {
    if entries != [] && entries[0].name != i.name && !Less(i.name, entries[0].name) {
      InsertCanonical(entries[1..], i);
    }
  }

  lemma {:induction false} NotBefore(entries: seq<Inode>, name: string)
    requires Sorted(entries) && entries != [] && Less(name, entries[0].name)
    ensures Lookup(entries, name) == None
    decreases |entries|
  {
    LessIsStrict(name);
    if |entries| > 1 {
      LessTransitive(name, entries[0].name, entries[1].name);
      NotBefore(entries[1..], name);
    }
  }

  /** A directory keeps the first entry that was given for each name. */
  lemma {:induction false} LookupInserted(entries: seq<Inode>, i: Inode, name: string)
    requires Sorted(entries)
    ensures Lookup(Insert(entries, i), name) ==
      if name == i.name && Lookup(entries, name).None? then Some(i) else Lookup(entries, name)
    decreases |entries|
  {
    if entries != [] {
      if Less(i.name, entries[0].name) {
        NotBefore(entries, i.name);
      } else {
        LookupInserted(entries[1..], i, name);
      }
    }
  }

  lemma {:induction false} BuildIsCanonical(c: Spec, parent: nat, numbering: Numbering)
    ensures Canonical(Build(c, parent, numbering).inode)
    decreases c, 1
  {
    if c.isDirectory {
      BuildAllIsCanonical(c.entries, numbering.next, numbering.(next := numbering.next + 1), []);
    }
  }

  lemma {:induction false} BuildAllIsCanonical(cs: seq<Spec>, parent: nat, numbering: Numbering, done: seq<Inode>)
    requires Sorted(done) && AllCanonical(done)
    ensures var built := BuildAll(cs, parent, numbering, done);
      Sorted(built.entries) && AllCanonical(built.entries)
    decreases cs, 0
  {
    if cs != [] {
      var first := Build(cs[0], parent, numbering);
      BuildIsCanonical(cs[0], parent, numbering);
      InsertSorted(done, first.inode);
      InsertCanonical(done, first.inode);
      BuildAllIsCanonical(cs[1..], parent, first.numbering, Insert(done, first.inode));
    }
  }

  /** The inode built for the first of the entries with the given name. */
  function FirstNamed(cs: seq<Spec>, parent: nat, numbering: Numbering, name: string): Option<Inode>
    decreases |cs|
  {
    if cs == [] then None
    else
      var first := Build(cs[0], parent, numbering);
      if cs[0].name == name then Some(first.inode)
      else FirstNamed(cs[1..], parent, first.numbering, name)
  }

  /** Looking a name up in a built directory finds the first entry configured under it, if any. */
  lemma {:induction false} FirstNameWins(cs: seq<Spec>, parent: nat, numbering: Numbering, done: seq<Inode>,
                                         name: string)
    requires Sorted(done)
    ensures Lookup(BuildAll(cs, parent, numbering, done).entries, name) ==
      if Lookup(done, name).Some? then Lookup(done, name) else FirstNamed(cs, parent, numbering, name)
    decreases |cs|
  {
    if cs != [] {
      var first := Build(cs[0], parent, numbering);
      InsertSorted(done, first.inode);
      LookupInserted(done, first.inode, name);
      FirstNameWins(cs[1..], parent, first.numbering, Insert(done, first.inode), name);
    }
  }

  lemma {:induction false} BuildAdvances(c: Spec, parent: nat, numbering: Numbering)
    ensures var built := Build(c, parent, numbering);
      built.inode.number == numbering.next < built.numbering.next && built.inode.name == c.name
    decreases c, 1
  {
    if c.isDirectory {
      BuildAllAdvances(c.entries, numbering.next, numbering.(next := numbering.next + 1), []);
    }
  }

  lemma {:induction false} BuildAllAdvances(cs: seq<Spec>, parent: nat, numbering: Numbering, done: seq<Inode>)
    ensures numbering.next <= BuildAll(cs, parent, numbering, done).numbering.next
    decreases cs, 0
  {
    if cs != [] {
      var first := Build(cs[0], parent, numbering);
      BuildAdvances(cs[0], parent, numbering);
      BuildAllAdvances(cs[1..], parent, first.numbering, Insert(done, first.inode));
    }
  }

  /** The inode that is built for the entry at position `k`. */
  function InodeOf(cs: seq<Spec>, parent: nat, numbering: Numbering, k: nat): Inode
    requires k < |cs|
    decreases k
  {
    var first := Build(cs[0], parent, numbering);
    if k == 0 then first.inode else InodeOf(cs[1..], parent, first.numbering, k - 1)
  }

  lemma {:induction false} InodeOfNumber(cs: seq<Spec>, parent: nat, numbering: Numbering, k: nat)
    requires k < |cs|
    ensures numbering.next <= InodeOf(cs, parent, numbering, k).number
    ensures InodeOf(cs, parent, numbering, k).name == cs[k].name
    decreases k
  {
    BuildAdvances(cs[0], parent, numbering);
    if k > 0 {
      InodeOfNumber(cs[1..], parent, Build(cs[0], parent, numbering).numbering, k - 1);
    }
  }

  lemma {:induction false} FirstNamedExactly(cs: seq<Spec>, parent: nat, numbering: Numbering, k: nat)
    requires k < |cs|
    ensures FirstNamed(cs, parent, numbering, cs[k].name) == Some(InodeOf(cs, parent, numbering, k)) <==>
      forall j :: 0 <= j < k ==> cs[j].name != cs[k].name
    decreases k
  {
    var first := Build(cs[0], parent, numbering);
    if k > 0 {
      BuildAdvances(cs[0], parent, numbering);
      InodeOfNumber(cs[1..], parent, first.numbering, k - 1);
      FirstNamedExactly(cs[1..], parent, first.numbering, k - 1);
      assert forall j :: 1 <= j < k ==> cs[j].name == cs[1..][j - 1].name;
      assert cs[0].name != cs[k].name && (forall j :: 0 <= j < k - 1 ==> cs[1..][j].name != cs[k].name)
        ==> forall j :: 0 <= j < k ==> cs[j].name != cs[k].name;
    }
  }

  /** An entry of a built directory is found under its name exactly when no entry before it has that name. */
  lemma FoundExactly(cs: seq<Spec>, parent: nat, numbering: Numbering, k: nat)
    requires k < |cs|
    ensures Lookup(BuildAll(cs, parent, numbering, []).entries, cs[k].name)
            == Some(InodeOf(cs, parent, numbering, k)) <==>
      forall j :: 0 <= j < k ==> cs[j].name != cs[k].name
  {
    FirstNameWins(cs, parent, numbering, [], cs[k].name);
    FirstNamedExactly(cs, parent, numbering, k);
  }

  /** `k` is the position of the first entry of its name. */
  ghost predicate FirstEntry(cs: seq<Spec>, k: nat) {
    k < |cs| && forall j :: 0 <= j < k ==> cs[j].name != cs[k].name
  }

  ghost predicate HasName(cs: seq<Spec>, name: string) {
    exists k :: 0 <= k < |cs| && cs[k].name == name
  }

  /**
    The inode is what the configuration says, said without building: its name, kind, queue length
    and access maps, and under each name that is configured in it the first entry of that name.
   */
  ghost predicate Realises(i: Inode, c: Spec)
    decreases c
  {
    && i.name == c.name && i.isDirectory == c.isDirectory
    && i.queueLength == (if c.queueLength.Some? then c.queueLength.value else DEFAULT_QUEUE_LENGTH)
    && MapReflects(i.uid, c.uidAccess) && MapReflects(i.gid, c.gidAccess)
    && (!i.isDirectory ==> i.entries == [])
    && (i.isDirectory ==>
          && Sorted(i.entries)
          && (forall name :: Lookup(i.entries, name).Some? <==> HasName(c.entries, name))
          && (forall k: nat :: FirstEntry(c.entries, k) ==>
                Lookup(i.entries, c.entries[k].name).Some? &&
                Realises(Lookup(i.entries, c.entries[k].name).value, c.entries[k])))
  }

  lemma {:induction false} FirstNamedSome(cs: seq<Spec>, parent: nat, numbering: Numbering, name: string)
    ensures FirstNamed(cs, parent, numbering, name).Some? <==> HasName(cs, name)
    decreases |cs|
  {
    if cs != [] {
      FirstNamedSome(cs[1..], parent, Build(cs[0], parent, numbering).numbering, name);
      if HasName(cs[1..], name) {
        var k :| 0 <= k < |cs| - 1 && cs[1..][k].name == name;
        assert cs[k + 1].name == name;
      }
      if HasName(cs, name) && cs[0].name != name {
        var k :| 0 <= k < |cs| && cs[k].name == name;
        assert cs[1..][k - 1].name == name;
      }
    }
  }

  lemma LookupExactly(cs: seq<Spec>, parent: nat, numbering: Numbering, name: string)
    ensures Lookup(BuildAll(cs, parent, numbering, []).entries, name).Some? <==> HasName(cs, name)
  {
    FirstNameWins(cs, parent, numbering, [], name);
    FirstNamedSome(cs, parent, numbering, name);
  }

  /** Every built inode realises its configuration, whatever that is and wherever it is built. */
  lemma {:induction false} BuildRealises(c: Spec, parent: nat, numbering: Numbering)
    ensures Realises(Build(c, parent, numbering).inode, c)
    decreases c, 1
  {
    hide WithGrants, MapReflects, Lookup, BuildAll, InodeOf, Insert;
    GrantsReflected(c.uidAccess);
    GrantsReflected(c.gidAccess);
    if c.isDirectory {
      var number, numbered := numbering.next, numbering.(next := numbering.next + 1);
      var entries := BuildAll(c.entries, number, numbered, []).entries;
      BuildAllIsCanonical(c.entries, number, numbered, []);
      forall name
        ensures Lookup(entries, name).Some? <==> HasName(c.entries, name)
      {
        LookupExactly(c.entries, number, numbered, name);
      }
      forall k: nat | FirstEntry(c.entries, k)
        ensures Lookup(entries, c.entries[k].name).Some?
        ensures Realises(Lookup(entries, c.entries[k].name).value, c.entries[k])
      {
        FoundExactly(c.entries, number, numbered, k);
        InodeOfRealises(c.entries, number, numbered, k);
      }
    }
  }

  lemma {:induction false} InodeOfRealises(cs: seq<Spec>, parent: nat, numbering: Numbering, k: nat)
    requires k < |cs|
    ensures Realises(InodeOf(cs, parent, numbering, k), cs[k])
    decreases cs, 0
  {
    hide Realises, Build;
    if k == 0 {
      BuildRealises(cs[0], parent, numbering);
    } else {
      InodeOfRealises(cs[1..], parent, Build(cs[0], parent, numbering).numbering, k - 1);
    }
  }

  /** Two files of one name: the second gets number 3 and is registered, but the name leads to number 2. */
  lemma SecondIsHidden(name: string, other: string)
    ensures var file := Spec(name, [], [], false, [], None, None);
      var tree := FileSystem(Spec(other, [], [], true, [file, file], None, None));
      && tree.Some? && 3 in tree.value.numbering.table
      && |tree.value.inode.entries| == 1
      && Lookup(tree.value.inode.entries, name) == Some(tree.value.inode.entries[0])
      && tree.value.inode.entries[0].number == 2
  {
    var file := Spec(name, [], [], false, [], None, None);
    var root := Spec(other, [], [], true, [file, file], None, None);
    var numbered := Numbering(2, map[]);
    var first := Build(file, ROOT, numbered);
    var second := Build(file, ROOT, first.numbering);
    assert Insert([], first.inode) == [first.inode];
    assert Insert([first.inode], second.inode) == [first.inode];
    assert [file, file][1..] == [file] && [file][1..] == [];
    assert BuildAll([], ROOT, second.numbering, [first.inode]) == BuiltEntries([first.inode], second.numbering);
    assert BuildAll([file], ROOT, first.numbering, [first.inode]) == BuiltEntries([first.inode], second.numbering);
    assert BuildAll([file, file], ROOT, numbered, []) == BuiltEntries([first.inode], second.numbering);
  }

  // Writing the configuration back ---------------------------------------------------------

  /** `to_config`: everything but the queue length. */
  ghost function ToConfig(i: Inode): Spec {
    Spec(i.name, Grants(i.uid), Grants(i.gid), i.isDirectory,
         if i.isDirectory then ToConfigs(i.entries) else [],
         None, Some(Numbers(i.number, i.parent)))
  }

  ghost function ToConfigs(entries: seq<Inode>): (cs: seq<Spec>)
    ensures |cs| == |entries|
  {
    if entries == [] then [] else [ToConfig(entries[0])] + ToConfigs(entries[1..])
  }

  /** The tokens are those of the entry, each once. */
  ghost predicate WrittenTokens(access: seq<Token>, entry: Entry) {
    && Reflects(entry, access)
    && Distinct(access)
    && (forall i :: 0 <= i < |access| ==> !access[i].Unknown?)
  }

  /** One grant for each id of the map, in ascending order. */
  ghost predicate WrittenGrants(grants: seq<Grant>, entries: map<nat, Entry>) {
    && (forall i, j :: 0 <= i < j < |grants| ==> grants[i].id < grants[j].id)
    && (forall id: nat :: id in entries <==> Names(grants, id))
    && (forall i :: 0 <= i < |grants| && grants[i].id in entries ==>
          WrittenTokens(grants[i].access, entries[grants[i].id]))
  }

  /**
    The configuration says what the inode is, under its number; the parent is the number that was
    written around it. There is no queue length.
   */
  ghost predicate Written(c: Spec, i: Inode, around: nat)
    decreases i
  {
    && c.name == i.name && c.isDirectory == i.isDirectory && c.queueLength == None
    && c.numbers == Some(Numbers(i.number, around))
    && WrittenGrants(c.uidAccess, i.uid) && WrittenGrants(c.gidAccess, i.gid)
    && |c.entries| == (if i.isDirectory then |i.entries| else 0)
    && forall k :: 0 <= k < |c.entries| && k < |i.entries| ==>
         Written(c.entries[k], i.entries[k], c.numbers.value.inode)
  }

  /** Every inode in the tree has its directory's number as its parent. */
  ghost predicate Linked(i: Inode)
    decreases i, 1
  {
    AllLinked(i.entries, i.number)
  }

  ghost predicate AllLinked(entries: seq<Inode>, parent: nat)
    decreases entries, 0
  {
    entries != [] ==> entries[0].parent == parent && Linked(entries[0]) && AllLinked(entries[1..], parent)
  }

  lemma {:induction false} PlacedIsLinked(entries: seq<Inode>, parent: nat, table: map<nat, Node>)
    requires AllPlaced(entries, parent, table)
    ensures AllLinked(entries, parent)
    decreases entries
  {
    if entries != [] {
      PlacedIsLinked(entries[0].entries, entries[0].number, table);
      PlacedIsLinked(entries[1..], parent, table);
    }
  }

  ghost predicate Distinct(access: seq<Token>) {
    forall i, j :: 0 <= i < j < |access| ==> access[i] != access[j]
  }

  /** Adding a token that is not there yet, or nothing. */
  lemma OneMoreToken(access: seq<Token>, flag: bool, token: Token)
    requires Distinct(access) && token !in access
    ensures var more := access + TokenIf(flag, token);
      Distinct(more) && forall t :: t in more <==> t in access || (flag && t == token)
  {}

  lemma OneToken(flag: bool, token: Token)
    ensures Distinct(TokenIf(flag, token)) && forall t :: t in TokenIf(flag, token) <==> flag && t == token
  {}

  lemma TokensWritten(entry: Entry)
    ensures WrittenTokens(Tokens(entry), entry)
  {
    hide Distinct, WrittenTokens, TokenIf;
    var r, w, c := entry.rights.read, entry.rights.write, entry.cascade;
    OneToken(r, Read);
    OneMoreToken(TokenIf(r, Read), w, Write);
    OneMoreToken(TokenIf(r, Read) + TokenIf(w, Write), c, Cascade);
    OneMoreToken(TokenIf(r, Read) + TokenIf(w, Write) + TokenIf(c, Cascade), entry.reset, Reset);
    DistinctKnown(Tokens(entry), entry);
  }

  lemma DistinctKnown(access: seq<Token>, entry: Entry)
    requires Distinct(access) && Reflects(entry, access)
    requires forall t :: t in access ==> !t.Unknown?
    ensures WrittenTokens(access, entry)
  {}

  lemma {:induction false} GrantsWritten(entries: map<nat, Entry>)
    ensures WrittenGrants(Grants(entries), entries)
    decreases entries.Keys
  {
    hide WrittenGrants, Tokens;
    if entries == map[] {
      NoGrantsWritten();
    } else {
      var k := Least(entries.Keys);
      GrantsWritten(entries - {k});
      GrantsFromLeast(entries, k);
      OneMoreWritten(entries, k, Grants(entries - {k}));
    }
  }

  lemma NoGrantsWritten()
    ensures WrittenGrants([], map[])
  {}

  lemma OneMoreWritten(entries: map<nat, Entry>, k: nat, grants: seq<Grant>)
    requires k in entries && forall j :: j in entries ==> k <= j
    requires WrittenGrants(grants, entries - {k})
    ensures WrittenGrants([Grant(k, Tokens(entries[k]))] + grants, entries)
  {
    hide WrittenTokens, Tokens;
    var g := Grant(k, Tokens(entries[k]));
    var all := [g] + grants;
    TokensWritten(entries[k]);
    forall id: nat
      ensures id in entries <==> Names(all, id)
    {
      NamesCons(g, grants, id);
    }
    forall i | 0 <= i < |grants|
      ensures k < grants[i].id && grants[i].id in entries - {k}
    {
      assert Names(grants, grants[i].id);
    }
    assert forall i :: 1 <= i < |all| ==> all[i] == grants[i - 1];
  }

  lemma NamesCons(g: Grant, grants: seq<Grant>, id: nat)
    ensures Names([g] + grants, id) <==> g.id == id || Names(grants, id)
  {
    var all := [g] + grants;
    assert all[0] == g;
    assert forall k :: 0 <= k < |grants| ==> all[k + 1] == grants[k];
    if Names(all, id) && g.id != id {
      var k :| 0 <= k < |all| && all[k].id == id;
      assert grants[k - 1].id == id;
    }
  }

  /** What is written for a tree describes it, entry by entry. */
  lemma {:induction false} ToConfigIsWritten(i: Inode, around: nat)
    requires Linked(i) && i.parent == around
    ensures Written(ToConfig(i), i, around)
    decreases i, 1
  {
    hide WrittenGrants, Grants;
    GrantsWritten(i.uid);
    GrantsWritten(i.gid);
    if i.isDirectory {
      AllWritten(i.entries, i.number);
    }
  }

  lemma {:induction false} AllWritten(entries: seq<Inode>, around: nat)
    requires AllLinked(entries, around)
    ensures forall k :: 0 <= k < |entries| ==> Written(ToConfigs(entries)[k], entries[k], around)
    decreases entries, 0
  {
    hide Written, ToConfig;
    if entries != [] {
      ToConfigIsWritten(entries[0], around);
      AllWritten(entries[1..], around);
      forall k | 0 <= k < |entries|
        ensures Written(ToConfigs(entries)[k], entries[k], around)
      {
        if k > 0 {
          assert ToConfigs(entries)[k] == ToConfigs(entries[1..])[k - 1] && entries[k] == entries[1..][k - 1];
        }
      }
    }
  }

  lemma LinkedIsWritten(i: Inode)
    ensures Linked(i) ==> Written(ToConfig(i), i, i.parent)
  {
    hide *;
    if Linked(i) {
      ToConfigIsWritten(i, i.parent);
    }
  }

  /** How often a number is written as an inode's own in the configuration. */
  function WrittenUses(c: Spec, n: nat): nat
    decreases c, 1
  {
    (if c.numbers.Some? && c.numbers.value.inode == n then 1 else 0) + AllWrittenUses(c.entries, n)
  }

  function AllWrittenUses(cs: seq<Spec>, n: nat): nat
    decreases cs, 0
  {
    if cs == [] then 0 else WrittenUses(cs[0], n) + AllWrittenUses(cs[1..], n)
  }

  lemma {:induction false} WrittenUsesAre(c: Spec, i: Inode, around: nat, n: nat)
    requires Written(c, i, around)
    ensures WrittenUses(c, n) <= Uses(i, n)
    decreases i, 1
  {
    if i.isDirectory {
      AllWrittenUsesAre(c.entries, i.entries, i.number, n);
    }
  }

  lemma {:induction false} AllWrittenUsesAre(cs: seq<Spec>, entries: seq<Inode>, around: nat, n: nat)
    requires |cs| == |entries| && forall k :: 0 <= k < |cs| ==> Written(cs[k], entries[k], around)
    ensures AllWrittenUses(cs, n) <= AllUses(entries, n)
    decreases entries, 0
  {
    hide Written;
    if cs != [] {
      WrittenUsesAre(cs[0], entries[0], around, n);
      AllWrittenUsesAre(cs[1..], entries[1..], around, n);
    }
  }

  /**
    The configuration written for a built file system describes its tree: the root has number 1 and
    parent 1, every other parent is the number written around it, and no number is written twice or
    was never assigned.
   */
  lemma BuiltTreeIsWritten(root: Spec, n: nat)
    requires FileSystem(root).Some?
    ensures var built := FileSystem(root).value;
      && Linked(built.inode) && built.inode.parent == ROOT && built.inode.number == ROOT
      && Written(ToConfig(built.inode), built.inode, ROOT)
      && WrittenUses(ToConfig(built.inode), n) <= if ROOT <= n < built.numbering.next then 1 else 0
  {
    var built := FileSystem(root).value;
    BuildNumbers(root, ROOT, NEW_NUMBERING);
    BuildIsPlaced(root, ROOT, NEW_NUMBERING);
    PlacedIsLinked(built.inode.entries, built.inode.number, built.numbering.table);
    ToConfigIsWritten(built.inode, ROOT);
    WrittenUsesAre(ToConfig(built.inode), built.inode, ROOT, n);
    NumbersAreDistinct(root, ROOT, NEW_NUMBERING, n);
  }

  /** Equal up to inode numbers and queue lengths. */
  predicate Same(i: Inode, j: Inode) {
    && i.name == j.name && i.uid == j.uid && i.gid == j.gid
    && i.isDirectory == j.isDirectory
    && AllSame(i.entries, j.entries)
  }

  predicate AllSame(a: seq<Inode>, b: seq<Inode>) {
    |a| == |b| && (a == [] || (Same(a[0], b[0]) && AllSame(a[1..], b[1..])))
  }

  /** All names of `done` come before the first name of `rest`. */
  predicate Precede(done: seq<Inode>, rest: seq<Inode>) {
    rest == [] || forall i :: 0 <= i < |done| ==> Less(done[i].name, rest[0].name)
  }

  lemma {:induction false} InsertLast(done: seq<Inode>, i: Inode)
    requires forall k :: 0 <= k < |done| ==> Less(done[k].name, i.name)
    ensures Insert(done, i) == done + [i]
    decreases |done|
  {
    if done != [] {
      LessIsStrict(i.name);
      if Less(i.name, done[0].name) {
        LessTransitive(i.name, done[0].name, i.name);
      }
      InsertLast(done[1..], i);
      assert done == [done[0]] + done[1..];
    }
  }

  lemma PrecedeNext(done: seq<Inode>, rest: seq<Inode>, i: Inode)
    requires rest != [] && Sorted(rest) && Precede(done, rest) && i.name == rest[0].name
    ensures Precede(done + [i], rest[1..])
  {
    if |rest| > 1 {
      forall k | 0 <= k < |done| ensures Less(done[k].name, rest[1].name) {
        LessTransitive(done[k].name, rest[0].name, rest[1].name);
      }
    }
  }

  /** Reading back what was written gives the same tree, apart from numbers and queue lengths. */
  lemma {:induction false} RoundTrip(i: Inode, parent: nat, numbering: Numbering)
    requires Canonical(i)
    ensures Same(Build(ToConfig(i), parent, numbering).inode, i)
    decreases i, 1
  {
    hide WithGrants, Grants, Sorted, BuildAll, ToConfigs;
    GrantsReadBack(i.uid);
    GrantsReadBack(i.gid);
    if i.isDirectory {
      var copy := RoundTripAll(i.entries, numbering.next, numbering.(next := numbering.next + 1), []);
      assert [] + copy == copy;
    }
  }

  lemma {:induction false} RoundTripAll(entries: seq<Inode>, parent: nat, numbering: Numbering, done: seq<Inode>)
    returns (copy: seq<Inode>)
    requires Sorted(entries) && AllCanonical(entries) && Precede(done, entries)
    ensures BuildAll(ToConfigs(entries), parent, numbering, done).entries == done + copy
    ensures AllSame(copy, entries)
    decreases entries, 0
  {
    if entries == [] {
      copy := [];
      assert done + copy == done;
    } else {
      var cs := ToConfigs(entries);
      var first := Build(cs[0], parent, numbering);
      RoundTrip(entries[0], parent, numbering);
      InsertLast(done, first.inode);
      PrecedeNext(done, entries, first.inode);
      assert cs[1..] == ToConfigs(entries[1..]);
      var rest := RoundTripAll(entries[1..], parent, first.numbering, done + [first.inode]);
      copy := [first.inode] + rest;
      assert copy[1..] == rest;
      assert done + [first.inode] + rest == done + copy;
    }
  }

  /** Building never looks at the numbers in a configuration. */
  lemma {:induction false} NumbersAreIgnored(i: Inode, j: Inode, parent: nat, numbering: Numbering)
    requires Same(i, j)
    ensures Build(ToConfig(i), parent, numbering) == Build(ToConfig(j), parent, numbering)
    decreases i, 1
  {
    if i.isDirectory {
      NumbersAreIgnoredAll(i.entries, j.entries, numbering.next, numbering.(next := numbering.next + 1), []);
    }
  }

  lemma {:induction false} NumbersAreIgnoredAll(a: seq<Inode>, b: seq<Inode>, parent: nat, numbering: Numbering,
                                                done: seq<Inode>)
    requires AllSame(a, b)
    ensures BuildAll(ToConfigs(a), parent, numbering, done) == BuildAll(ToConfigs(b), parent, numbering, done)
    decreases a, 0
  {
    if a != [] {
      NumbersAreIgnored(a[0], b[0], parent, numbering);
      var first := Build(ToConfig(a[0]), parent, numbering);
      assert ToConfigs(a)[1..] == ToConfigs(a[1..]) && ToConfigs(b)[1..] == ToConfigs(b[1..]);
      NumbersAreIgnoredAll(a[1..], b[1..], parent, first.numbering, Insert(done, first.inode));
    }
  }

  /** The tree that comes back when a tree is written out and read again. */
  ghost function Reread(i: Inode): Inode {
    Build(ToConfig(i), ROOT, NEW_NUMBERING).inode
  }

  /**
    Writing out any built tree and reading it back gives the same names, shape and access maps;
    from then on writing and reading changes nothing any more, not even an inode number.
   */
  lemma ConfigurationRoundTrip(root: Spec)
    requires FileSystem(root).Some?
    ensures var tree := FileSystem(root).value.inode;
      && Same(Reread(tree), tree)
      && Reread(Reread(tree)) == Reread(tree)
      && ToConfig(Reread(Reread(tree))) == ToConfig(Reread(tree))
  {
    var tree := FileSystem(root).value.inode;
    BuildIsCanonical(root, ROOT, NEW_NUMBERING);
    RoundTrip(tree, ROOT, NEW_NUMBERING);
    NumbersAreIgnored(Reread(tree), tree, ROOT, NEW_NUMBERING);
  }
}
