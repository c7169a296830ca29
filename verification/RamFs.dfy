/**
 * Names and link counts of the RAM filesystem of src/filesystem/ramfs.rs.  An inode
 * lives as long as something holds it, which may be longer than it stays in the inode
 * table; `inodes` are all inodes that were ever made, and `table` those in the table.
 */
module RamFss {
  import opened Common

  type Ino = nat
  type Name = seq<byte>

  const ROOT: Ino := 1
  const LINKS_MAX: nat := 0xFFFF

  /** An inode; only a directory has entries. */
  datatype Inode = Inode(directory: bool, entries: map<Name, Ino>, links: nat)

  type Inodes = map<Ino, Inode>

  datatype Errno = EINVAL | ENOENT | EISDIR | ENOTDIR | ENOTEMPTY | EEXIST | EIO | EMLINK

  datatype Result = Ok | Err(error: Errno) | Panic

  datatype UnlinkMode = FileOnly | DirOnly | Any

  // ---------------------------------------------------------------- entries

  /** The directory entries that name an inode. */
  ghost function Naming(inodes: Inodes, i: Ino): set<(Ino, Name)> {
    set d, n | d in inodes && n in inodes[d].entries && inodes[d].entries[n] == i :: (d, n)
  }

  function WithEntry(inodes: Inodes, d: Ino, n: Name, i: Ino): Inodes
    requires d in inodes
  {
    inodes[d := inodes[d].(entries := inodes[d].entries[n := i])]
  }

  function WithoutEntry(inodes: Inodes, d: Ino, n: Name): Inodes
    requires d in inodes
  {
    inodes[d := inodes[d].(entries := inodes[d].entries - {n})]
  }

  function WithLinks(inodes: Inodes, i: Ino, links: nat): Inodes
    requires i in inodes
  {
    inodes[i := inodes[i].(links := links)]
  }

  lemma NamingWith(inodes: Inodes, d: Ino, n: Name, i: Ino, j: Ino)
    requires d in inodes && n !in inodes[d].entries
    ensures Naming(WithEntry(inodes, d, n, i), j) == if i == j then Naming(inodes, j) + {(d, n)} else Naming(inodes, j)
    ensures (d, n) !in Naming(inodes, j)
  {
  }

  lemma NamingWithout(inodes: Inodes, d: Ino, n: Name, j: Ino)
    requires d in inodes && n in inodes[d].entries
    ensures Naming(WithoutEntry(inodes, d, n), j) == Naming(inodes, j) - {(d, n)}
    ensures (d, n) in Naming(inodes, j) <==> inodes[d].entries[n] == j
  {
  }

  lemma NamingLinks(inodes: Inodes, i: Ino, links: nat, j: Ino)
    requires i in inodes
    ensures Naming(WithLinks(inodes, i, links), j) == Naming(inodes, j)
  {
  }

  lemma NamingNew(inodes: Inodes, i: Ino, directory: bool, links: nat, j: Ino)
    requires i !in inodes
    ensures Naming(inodes[i := Inode(directory, map[], links)], j) == Naming(inodes, j)
  {
  }

  // ---------------------------------------------------------------- the invariant

  /** Inode `i` is in the table with a link for every entry that names it; only the root has none to begin with. */
  ghost predicate Counted(inodes: Inodes, i: Ino)
    requires i in inodes
  {
    && |Naming(inodes, i)| <= inodes[i].links <= LINKS_MAX
    && (i != ROOT ==> inodes[i].links > 0) && (i == ROOT ==> inodes[i].links == 0)
  }

  ghost predicate Sound(inodes: Inodes, table: set<Ino>, counter: nat) {
    && (forall i | i in table :: i in inodes && Counted(inodes, i))
    && (forall i | i in inodes :: i < counter)
    && (forall i | i !in table :: Naming(inodes, i) == {})
  }

  /** No entry dangles: it names an inode in the table. */
  lemma NoDangling(inodes: Inodes, table: set<Ino>, counter: nat, d: Ino, n: Name)
    requires Sound(inodes, table, counter) && d in inodes && n in inodes[d].entries
    ensures inodes[d].entries[n] in table && inodes[d].entries[n] != ROOT
    ensures inodes[inodes[d].entries[n]].links > 0
  {
    var i := inodes[d].entries[n];
    assert (d, n) in Naming(inodes, i);
    assert |Naming(inodes, i)| > 0;
  }

  // ---------------------------------------------------------------- what each change keeps

  lemma RemoveKeepsSound(inodes: Inodes, table: set<Ino>, counter: nat, d: Ino, n: Name)
    requires Sound(inodes, table, counter) && d in inodes && n in inodes[d].entries
    ensures Sound(WithoutEntry(inodes, d, n), table, counter)
  {
    forall j
      ensures Naming(WithoutEntry(inodes, d, n), j) == Naming(inodes, j) - {(d, n)}
    {
      NamingWithout(inodes, d, n, j);
    }
  }

  /** Dropping a link of an inode that has one more than its entries. */
  lemma DropKeepsSound(inodes: Inodes, table: set<Ino>, counter: nat, i: Ino)
    requires Sound(inodes, table, counter) && i in table && i != ROOT && |Naming(inodes, i)| < inodes[i].links
    ensures var after := WithLinks(inodes, i, inodes[i].links - 1);
            Sound(after, if inodes[i].links == 1 then table - {i} else table, counter)
  {
    forall j
      ensures Naming(WithLinks(inodes, i, inodes[i].links - 1), j) == Naming(inodes, j)
    {
      NamingLinks(inodes, i, inodes[i].links - 1, j);
    }
  }

  lemma AddKeepsSound(inodes: Inodes, table: set<Ino>, counter: nat, d: Ino, n: Name, i: Ino)
    requires Sound(inodes, table, counter) && d in inodes && n !in inodes[d].entries
    requires i in table && i != ROOT && |Naming(inodes, i)| < inodes[i].links
    ensures Sound(WithEntry(inodes, d, n, i), table, counter)
  {
    forall j
      ensures Naming(WithEntry(inodes, d, n, i), j)
           == if i == j then Naming(inodes, j) + {(d, n)} else Naming(inodes, j)
    {
      NamingWith(inodes, d, n, i, j);
    }
    forall j | j in table
      ensures Counted(WithEntry(inodes, d, n, i), j)
    {
      assert Counted(inodes, j);
    }
  }

  lemma RaiseKeepsSound(inodes: Inodes, table: set<Ino>, counter: nat, i: Ino)
    requires Sound(inodes, table, counter) && i in table && i != ROOT && inodes[i].links < LINKS_MAX
    ensures Sound(WithLinks(inodes, i, inodes[i].links + 1), table, counter)
  {
    forall j
      ensures Naming(WithLinks(inodes, i, inodes[i].links + 1), j) == Naming(inodes, j)
    {
      NamingLinks(inodes, i, inodes[i].links + 1, j);
    }
    forall j | j in table
      ensures Counted(WithLinks(inodes, i, inodes[i].links + 1), j)
    {
      assert Counted(inodes, j);
    }
  }

  /** One more link and one more name for inode `i`. */
  lemma LinkKeepsSound(inodes: Inodes, table: set<Ino>, counter: nat, d: Ino, n: Name, i: Ino)
    requires Sound(inodes, table, counter) && d in inodes && n !in inodes[d].entries
    requires i in table && i != ROOT && inodes[i].links < LINKS_MAX
    ensures Sound(WithEntry(WithLinks(inodes, i, inodes[i].links + 1), d, n, i), table, counter)
  {
    assert Counted(inodes, i);
    RaiseKeepsSound(inodes, table, counter, i);
    NamingLinks(inodes, i, inodes[i].links + 1, i);
    AddKeepsSound(WithLinks(inodes, i, inodes[i].links + 1), table, counter, d, n, i);
  }

  lemma MakeKeepsSound(inodes: Inodes, table: set<Ino>, counter: nat, directory: bool)
    requires Sound(inodes, table, counter) && counter > ROOT
    ensures counter !in inodes && counter !in table
    ensures var after := inodes[counter := Inode(directory, map[], 1)];
            Sound(after, table + {counter}, counter + 1) && Naming(after, counter) == {}
  {
    forall j
      ensures Naming(inodes[counter := Inode(directory, map[], 1)], j) == Naming(inodes, j)
    {
      NamingNew(inodes, counter, directory, 1, j);
    }
    forall j | j in table
      ensures Counted(inodes[counter := Inode(directory, map[], 1)], j)
    {
      assert Counted(inodes, j);
    }
  }

  // ---------------------------------------------------------------- unlinking

  /** Why an entry that names inode `i` cannot be unlinked, if it cannot. */
  function UnlinkError(inode: Inode, mode: UnlinkMode): Option<Errno> {
    if inode.directory then
      if mode == FileOnly then Some(EISDIR) else if |inode.entries| != 0 then Some(ENOTEMPTY) else None
    else if mode == DirOnly then Some(ENOTDIR)
    else None
  }

  function UnlinkResult(inode: Inode, mode: UnlinkMode): Result {
    match UnlinkError(inode, mode) case Some(e) => Err(e) case None => Ok
  }

  /** The inodes and the table after an entry is unlinked: it is gone even if the call fails. */
  function Unlinked(inodes: Inodes, table: set<Ino>, d: Ino, n: Name, mode: UnlinkMode): (Inodes, set<Ino>)
    requires d in inodes && n in inodes[d].entries && inodes[d].entries[n] in inodes
    requires inodes[inodes[d].entries[n]].links > 0
  {
    var i, removed := inodes[d].entries[n], WithoutEntry(inodes, d, n);
    if UnlinkError(removed[i], mode).Some? then (removed, table)
    else (WithLinks(removed, i, removed[i].links - 1), if removed[i].links == 1 then table - {i} else table)
  }

  lemma UnlinkKeepsSound(inodes: Inodes, table: set<Ino>, counter: nat, d: Ino, n: Name, mode: UnlinkMode)
    requires Sound(inodes, table, counter) && d in inodes && n in inodes[d].entries
    ensures inodes[d].entries[n] in inodes && inodes[inodes[d].entries[n]].links > 0
    ensures var (after, table') := Unlinked(inodes, table, d, n, mode); Sound(after, table', counter)
  {
    NoDangling(inodes, table, counter, d, n);
    RemoveKeepsSound(inodes, table, counter, d, n);
    var i, removed := inodes[d].entries[n], WithoutEntry(inodes, d, n);
    NamingWithout(inodes, d, n, i);
    if UnlinkError(removed[i], mode).None? {
      assert Counted(inodes, i);
      DropKeepsSound(removed, table, counter, i);
    }
  }

  /** Every link count is the number of entries. */
  ghost predicate Exact(inodes: Inodes, table: set<Ino>) {
    forall i | i in table && i in inodes :: inodes[i].links == |Naming(inodes, i)|
  }

  lemma ExactWithout(inodes: Inodes, table: set<Ino>, d: Ino, n: Name, j: Ino)
    requires Exact(inodes, table) && d in inodes && n in inodes[d].entries && j in table && j in inodes
    ensures var removed := WithoutEntry(inodes, d, n);
            removed[j].links == |Naming(removed, j)| + (if j == inodes[d].entries[n] then 1 else 0)
  {
    NamingWithout(inodes, d, n, j);
  }

  /** The entry can be unlinked in this mode: a directory must be empty but for the entry itself. */
  predicate Unlinkable(inodes: Inodes, d: Ino, n: Name, mode: UnlinkMode)
    requires d in inodes && n in inodes[d].entries && inodes[d].entries[n] in inodes
  {
    var i := inodes[d].entries[n];
    if inodes[i].directory then mode != FileOnly && forall m | m in inodes[i].entries :: i == d && m == n
    else mode != DirOnly
  }

  lemma UnlinkableIs(inodes: Inodes, d: Ino, n: Name, mode: UnlinkMode)
    requires d in inodes && n in inodes[d].entries && inodes[d].entries[n] in inodes
    ensures Unlinkable(inodes, d, n, mode)
       <==> UnlinkError(WithoutEntry(inodes, d, n)[inodes[d].entries[n]], mode).None?
  {
    var i := inodes[d].entries[n];
    var rest := WithoutEntry(inodes, d, n)[i].entries;
    assert rest.Keys == {} <==> forall m | m in inodes[i].entries :: i == d && m == n by {
      assert forall m :: m in rest <==> m in inodes[i].entries && !(i == d && m == n);
    }
    assert |rest| == |rest.Keys|;
  }

  /**
   * Link counts stay exact through an unlink if and only if the entry can be unlinked: a failure
   * loses the entry and keeps the link.
   */
  lemma UnlinkExactIff(inodes: Inodes, table: set<Ino>, counter: nat, d: Ino, n: Name, mode: UnlinkMode)
    requires Sound(inodes, table, counter) && Exact(inodes, table) && d in inodes && n in inodes[d].entries
    ensures inodes[d].entries[n] in inodes && inodes[inodes[d].entries[n]].links > 0
    ensures var after := Unlinked(inodes, table, d, n, mode);
            Exact(after.0, after.1) <==> Unlinkable(inodes, d, n, mode)
  {
    NoDangling(inodes, table, counter, d, n);
    UnlinkableIs(inodes, d, n, mode);
    var i, removed := inodes[d].entries[n], WithoutEntry(inodes, d, n);
    var after := Unlinked(inodes, table, d, n, mode);
    if UnlinkError(removed[i], mode).None? {
      forall j | j in after.1 && j in after.0
        ensures after.0[j].links == |Naming(after.0, j)|
      {
        ExactWithout(inodes, table, d, n, j);
        NamingLinks(removed, i, removed[i].links - 1, j);
      }
    } else {
      ExactWithout(inodes, table, d, n, i);
    }
  }

  // ---------------------------------------------------------------- the filesystem

  class RamFs {
    const allowDevfiles: bool
    var inodes: Inodes
    var table: set<Ino>
    var inoCtr: nat

    ghost predicate Valid()
      reads this
    {
      Sound(inodes, table, inoCtr) && ROOT < inoCtr
    }

    constructor (allowDevfiles: bool)
      ensures Valid() && Exact(inodes, table)
      ensures table == {ROOT} && inodes == map[ROOT := Inode(true, map[], 0)] && inoCtr == 2
    {
      this.allowDevfiles := allowDevfiles;
      inodes, table, inoCtr := map[ROOT := Inode(true, map[], 0)], {ROOT}, 2;
      new;
      assert forall i :: Naming(inodes, i) == {};
    }

    method MakeFile(d: Ino, n: Name, directory: bool, device: bool) returns (r: Result)
      requires Valid() && d in inodes
      modifies this
      ensures Valid()
      ensures r == if !old(inodes)[d].directory then Err(EINVAL)
                   else if n in old(inodes)[d].entries then Err(EEXIST)
                   else if device && !allowDevfiles then Err(EINVAL)
                   else Ok
      ensures r != Ok ==> unchanged(this)
      ensures r == Ok ==>
        && old(inoCtr) !in old(inodes) && inoCtr == old(inoCtr) + 1 && table == old(table) + {old(inoCtr)}
        && inodes == WithEntry(old(inodes)[old(inoCtr) := Inode(directory, map[], 1)], d, n, old(inoCtr))
    {
      if !inodes[d].directory {
        return Err(EINVAL);
      }
      if n in inodes[d].entries {
        return Err(EEXIST);
      }
      if device && !allowDevfiles {
        return Err(EINVAL);
      }
      var ino := inoCtr;
      MakeKeepsSound(inodes, table, ino, directory);
      inodes := inodes[ino := Inode(directory, map[], 1)];
      table, inoCtr := table + {ino}, inoCtr + 1;
      AddKeepsSound(inodes, table, inoCtr, d, n, ino);
      inodes := WithEntry(inodes, d, n, ino);
      return Ok;
    }

    /** Whether inode `i` can be given another name.  The root, which has no link, cannot. */
    method LinkCheck(d: Ino, n: Name, i: Ino) returns (r: Result)
      requires Valid() && d in inodes
      ensures r == if !inodes[d].directory then Err(EINVAL)
                   else if n in inodes[d].entries then Err(EEXIST)
                   else if i !in table then Err(EIO)
                   else if i == ROOT then Panic
                   else if inodes[i].links == LINKS_MAX then Err(EMLINK)
                   else Ok
    {
      if !inodes[d].directory {
        return Err(EINVAL);
      }
      if n in inodes[d].entries {
        return Err(EEXIST);
      }
      if i !in table {
        return Err(EIO);
      }
      assert Counted(inodes, i);
      if inodes[i].links == 0 {
        return Panic;
      }
      if inodes[i].links >= LINKS_MAX {
        return Err(EMLINK);
      }
      return Ok;
    }

    method AddName(d: Ino, n: Name, i: Ino)
      requires Valid() && d in inodes && n !in inodes[d].entries
      requires i in table && i != ROOT && inodes[i].links != LINKS_MAX
      modifies this`inodes
      ensures Valid() && inodes == WithEntry(WithLinks(old(inodes), i, old(inodes)[i].links + 1), d, n, i)
    {
      assert Counted(inodes, i);
      LinkKeepsSound(inodes, table, inoCtr, d, n, i);
      inodes := WithLinks(inodes, i, inodes[i].links + 1);
      inodes := WithEntry(inodes, d, n, i);
    }

    /** Give inode `i` another name. */
    method Link(d: Ino, n: Name, i: Ino) returns (r: Result)
      requires Valid() && d in inodes
      modifies this
      ensures Valid()
      ensures r == if !old(inodes)[d].directory then Err(EINVAL)
                   else if n in old(inodes)[d].entries then Err(EEXIST)
                   else if i !in old(table) then Err(EIO)
                   else if i == ROOT then Panic
                   else if old(inodes)[i].links == LINKS_MAX then Err(EMLINK)
                   else Ok
      ensures r != Ok ==> unchanged(this)
      ensures r == Ok ==>
        && unchanged(`table) && unchanged(`inoCtr)
        && inodes == WithEntry(WithLinks(old(inodes), i, old(inodes)[i].links + 1), d, n, i)
    {
      r := LinkCheck(d, n, i);
      if r == Ok {
        AddName(d, n, i);
      }
    }

    /** Remove an entry, and with its last link the inode; an entry that cannot be unlinked is lost all the same. */
    method Unlink(d: Ino, n: Name, mode: UnlinkMode) returns (r: Result)
      requires Valid() && d in inodes
      modifies this
      ensures Valid() && r != Panic
      ensures !old(inodes)[d].directory ==> r == Err(EINVAL) && unchanged(this)
      ensures old(inodes)[d].directory && n !in old(inodes)[d].entries ==> r == Err(ENOENT) && unchanged(this)
      ensures old(inodes)[d].directory && n in old(inodes)[d].entries ==>
        var i := old(inodes)[d].entries[n];
        && i in old(table) && old(inodes)[i].links > 0
        && (inodes, table) == Unlinked(old(inodes), old(table), d, n, mode)
        && r == UnlinkResult(WithoutEntry(old(inodes), d, n)[i], mode)
    {
      if !inodes[d].directory {
        return Err(EINVAL);
      }
      if n !in inodes[d].entries {
        return Err(ENOENT);
      }
      NoDangling(inodes, table, inoCtr, d, n);
      UnlinkKeepsSound(inodes, table, inoCtr, d, n, mode);
      r := DropEntry(d, n, mode);
    }

    method DropEntry(d: Ino, n: Name, mode: UnlinkMode) returns (r: Result)
      requires d in inodes && n in inodes[d].entries && inodes[d].entries[n] in inodes
      requires inodes[inodes[d].entries[n]].links > 0
      modifies this`inodes, this`table
      ensures (inodes, table) == Unlinked(old(inodes), old(table), d, n, mode)
      ensures r == UnlinkResult(WithoutEntry(old(inodes), d, n)[old(inodes)[d].entries[n]], mode)
    {
      var ino := inodes[d].entries[n];
      inodes := WithoutEntry(inodes, d, n);
      if inodes[ino].directory {
        if mode == FileOnly {
          return Err(EISDIR);
        } else if |inodes[ino].entries| != 0 {
          return Err(ENOTEMPTY);
        }
      } else if mode == DirOnly {
        return Err(ENOTDIR);
      }
      var links := inodes[ino].links;
      inodes := WithLinks(inodes, ino, links - 1);
      if links == 1 {
        table := table - {ino};
      }
      return Ok;
    }

    method Rename(d: Ino, from: Name, to: Name) returns (r: Result)
      requires Valid() && d in inodes
      modifies this
      ensures Valid() && unchanged(`table) && unchanged(`inoCtr)
      ensures r == if !old(inodes)[d].directory then Err(EINVAL)
                   else if from !in old(inodes)[d].entries then Err(ENOENT)
                   else if from != to && to in old(inodes)[d].entries then Err(EEXIST)
                   else Ok
      ensures r != Ok || from == to ==> unchanged(this)
      ensures r == Ok && from != to ==>
        && from in old(inodes)[d].entries
        && inodes == WithEntry(WithoutEntry(old(inodes), d, from), d, to, old(inodes)[d].entries[from])
    {
      if !inodes[d].directory {
        return Err(EINVAL);
      }
      if from == to {
        return if from in inodes[d].entries then Ok else Err(ENOENT);
      }
      if from !in inodes[d].entries {
        return Err(ENOENT);
      }
      if to in inodes[d].entries {
        return Err(EEXIST);
      }
      var i := inodes[d].entries[from];
      RenameKeepsSound(inodes, table, inoCtr, d, from, to);
      RenameOrder(inodes, d, from, to, i);
      inodes := WithoutEntry(WithEntry(inodes, d, to, i), d, from);
      return Ok;
    }
  }

  lemma RenameOrder(inodes: Inodes, d: Ino, from: Name, to: Name, i: Ino)
    requires d in inodes && from != to
    ensures WithoutEntry(WithEntry(inodes, d, to, i), d, from) == WithEntry(WithoutEntry(inodes, d, from), d, to, i)
  {
    var entries := inodes[d].entries;
    assert entries[to := i] - {from} == (entries - {from})[to := i];
  }

  lemma RenameKeepsSound(inodes: Inodes, table: set<Ino>, counter: nat, d: Ino, from: Name, to: Name)
    requires Sound(inodes, table, counter) && d in inodes && from in inodes[d].entries && to !in inodes[d].entries
    ensures Sound(WithEntry(WithoutEntry(inodes, d, from), d, to, inodes[d].entries[from]), table, counter)
  {
    var i, removed := inodes[d].entries[from], WithoutEntry(inodes, d, from);
    NoDangling(inodes, table, counter, d, from);
    RemoveKeepsSound(inodes, table, counter, d, from);
    NamingWithout(inodes, d, from, i);
    assert Counted(inodes, i);
    AddKeepsSound(removed, table, counter, d, to, i);
  }

  /** A new directory, unlinked as a file: the call fails, the name is gone, and the inode keeps its link. */
  method UnlinkDirectoryAsFile(n: Name) returns (r: Result, named: bool, links: nat)
    ensures r == Err(EISDIR) && !named && links == 1
  {
    var fs := new RamFs(false);
    var made := fs.MakeFile(ROOT, n, true, false);
    var i := fs.inodes[ROOT].entries[n];
    r := fs.Unlink(ROOT, n, FileOnly);
    named := n in fs.inodes[ROOT].entries;
    links := fs.inodes[i].links;
  }
}
