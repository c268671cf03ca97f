/**
 * Recursive folder deletion over a file tree: directories are emptied depth first, symbolic links are removed
 * unfollowed. The calls inside a folder are raw system calls that return a negated error number, while the code looks
 * for -1, the number of one error only: it takes any other error of a listing for its end, and any other error of an
 * open for a descriptor.
 */
module FolderDeletion {

  type Name = string
  type Path = seq<Name>

  datatype Kind = Regular | Link(target: Path) | Directory

  type Nodes = map<Path, Kind>

  /** The entries for a directory itself and its parent, which every listing contains. */
  predicate Dots(n: Name) {
    n == "." || n == ".."
  }

  /** Everything but the root lies in a directory, and no name is a dot entry. */
  ghost predicate IsTree(nodes: Nodes) {
    forall p :: p in nodes && p != [] ==>
      Parent(p) in nodes && nodes[Parent(p)] == Directory && !Dots(p[|p| - 1])
  }

  function Parent(p: Path): Path
    requires p != []
  {
    p[..|p| - 1]
  }

  /** p is at or below dir. */
  predicate Under(dir: Path, p: Path) {
    dir <= p
  }

  /** The names in a directory. */
  function Children(nodes: Nodes, dir: Path): set<Name> {
    set p | p in nodes && |p| == |dir| + 1 && dir < p :: p[|dir|]
  }

  lemma ChildrenExactly(nodes: Nodes, dir: Path, n: Name)
    ensures dir + [n] in nodes <==> n in Children(nodes, dir)
  {
    var p := dir + [n];
    assert p[|dir|] == n && |p| == |dir| + 1 && dir < p;
    if n in Children(nodes, dir) {
      var q :| q in nodes && |q| == |dir| + 1 && dir < q && q[|dir|] == n;
      assert q == p;
    }
  }

  function Inside(nodes: Nodes, dir: Path): set<Path> {
    set p | p in nodes && dir < p
  }

  /** The tree without the paths at or below dir. */
  function Pruned(nodes: Nodes, dir: Path): Nodes {
    map p | p in nodes && !Under(dir, p) :: nodes[p]
  }

  /** The tree without the paths strictly below dir. */
  function Emptied(nodes: Nodes, dir: Path): Nodes {
    map p | p in nodes && !(dir < p) :: nodes[p]
  }

  /** Some paths at or below dir are gone, and nothing else has happened. */
  ghost predicate Shrunk(before: Nodes, after: Nodes, dir: Path) {
    && (forall p :: p in after ==> p in before && after[p] == before[p])
    && (forall p :: p in before && !Under(dir, p) ==> p in after)
  }

  lemma {:induction false} AncestorIsDirectory(nodes: Nodes, d: Path, p: Path)
    requires IsTree(nodes) && p in nodes && d < p
    ensures d in nodes && nodes[d] == Directory
    decreases |p|
  {
    var q := Parent(p);
    if |d| < |q| {
      AncestorIsDirectory(nodes, d, q);
    } else {
      assert d == q;
    }
  }

  /** A directory with no entries has nothing below it. */
  lemma NoChildrenNothingInside(nodes: Nodes, dir: Path)
    requires IsTree(nodes) && forall n: Name :: dir + [n] !in nodes
    ensures Inside(nodes, dir) == {}
  {
    if p :| p in nodes && dir < p {
      var child := p[..|dir| + 1];
      assert child == dir + [p[|dir|]];
      if child != p {
        AncestorIsDirectory(nodes, child, p);
      }
    }
  }

  /** The result of a listing: -1 stands for a lack of permission alone. */
  datatype Listing = Batch(names: seq<Name>) | End | NotPermitted | OtherError

  /** The result of an open inside a folder; any error but -1 is used as a descriptor, on which listing fails. */
  datatype Descriptor = Opened | Refused | BadDescriptor

  class FileTree {
    var nodes: Nodes
    /** On a reliable system no call fails without a reason in the tree. */
    const reliable: bool

    constructor (nodes: Nodes, reliable: bool)
      ensures this.nodes == nodes && this.reliable == reliable
    {
      this.nodes, this.reliable := nodes, reliable;
    }

    /** The names a fresh descriptor of dir will list. */
    function Entries(dir: Path): set<Name>
      reads this
    {
      {".", ".."} + Children(nodes, dir)
    }

    /** `getdents64`: some not yet listed names, the end exactly when all have been listed, or an error. */
    method Getdents(pending: set<Name>) returns (listing: Listing)
      ensures reliable ==> listing.Batch? || listing == End
      ensures listing == End ==> pending == {}
      ensures listing.Batch? ==> listing.names != [] && forall n :: n in listing.names ==> n in pending
      ensures listing.Batch? ==> forall i, j :: 0 <= i < j < |listing.names| ==> listing.names[i] != listing.names[j]
    {
      listing := *;
      if reliable || (listing != NotPermitted && listing != OtherError) {
        if pending == {} {
          return End;
        }
        var n :| n in pending;
        return Batch([n]);
      }
    }

    /** `fstatat` without following: what the path itself is. */
    method Stat(p: Path) returns (ok: bool, kind: Kind)
      ensures reliable && p in nodes ==> ok
      ensures ok ==> p in nodes && kind == nodes[p]
    {
      ok := *;
      ok := p in nodes && (reliable || ok);
      kind := if ok then nodes[p] else Regular;
    }

    /** `openat` with O_DIRECTORY and O_NOFOLLOW: a descriptor or an error. */
    method OpenAt(p: Path) returns (fd: Descriptor)
      ensures reliable && p in nodes && nodes[p] == Directory ==> fd == Opened
      ensures fd == Opened ==> p in nodes && nodes[p] == Directory
    {
      fd := *;
      if reliable || fd == Opened {
        fd := if p in nodes && nodes[p] == Directory then Opened else BadDescriptor;
      }
    }

    /** `open` of the C library, where -1 is every error. */
    method OpenDirectory(p: Path) returns (ok: bool)
      ensures reliable && p in nodes && nodes[p] == Directory ==> ok
      ensures ok ==> p in nodes && nodes[p] == Directory
    {
      var fd := OpenAt(p);
      ok := fd == Opened;
    }

    /** `unlinkat` on anything but a directory. */
    method Unlink(p: Path) returns (ok: bool)
      modifies this
      ensures reliable && old(p in nodes && nodes[p] != Directory) ==> ok
      ensures ok ==> old(p in nodes && nodes[p] != Directory) && nodes == old(nodes) - {p}
      ensures !ok ==> nodes == old(nodes)
    {
      ok := *;
      ok := p in nodes && nodes[p] != Directory && (reliable || ok);
      if ok {
        nodes := nodes - {p};
      }
    }

    /** `unlinkat` with AT_REMOVEDIR, and `rmdir`: only an empty directory can go. */
    method RemoveDirectory(p: Path) returns (ok: bool)
      modifies this
      ensures reliable && old(p in nodes && nodes[p] == Directory && Inside(nodes, p) == {}) ==> ok
      ensures ok ==> old(p in nodes && nodes[p] == Directory && Inside(nodes, p) == {}) && nodes == old(nodes) - {p}
      ensures !ok ==> nodes == old(nodes)
    {
      ok := *;
      ok := p in nodes && nodes[p] == Directory && Inside(nodes, p) == {} && (reliable || ok);
      if ok {
        nodes := nodes - {p};
      }
    }

    /** One entry of the inner loop: a directory is emptied, whatever that reports, and removed; others are unlinked. */
    method DeleteEntry(dir: Path, name: Name) returns (ok: bool)
      requires IsTree(nodes)
      modifies this
      ensures IsTree(nodes) && Shrunk(old(nodes), nodes, dir + [name])
      ensures ok ==> nodes == Pruned(old(nodes), dir + [name])
      ensures reliable && dir + [name] in old(nodes) ==> ok
      decreases Inside(nodes, dir), 0
    {
      hide IsTree;
      hide Shrunk;
      hide Pruned;
      hide Emptied;
      var p := dir + [name];
      ShrunkStart(nodes, p);
      var found, kind := Stat(p);
      if !found {
        return false;
      }
      if kind == Directory {
        var fd := OpenAt(p);
        if fd == Refused {
          return false;
        }
        if fd == Opened {
          SubdirectoryIsInside(nodes, dir, name);
          var ignored, _, _ := DeleteInside(p);
        }
        ghost var mid := nodes;
        if mid == Emptied(old(nodes), p) {
          EmptiedHasNothingInside(old(nodes), p);
        }
        ok := RemoveDirectory(p);
        if ok {
          EmptyDirectoryIsPruned(old(nodes), mid, nodes, p);
        }
      } else {
        ok := Unlink(p);
        if ok {
          LeafIsPruned(old(nodes), p);
          PrunedIsShrunk(old(nodes), p);
        }
      }
    }

    /** The inner loop over one batch of entries. */
    method DeleteBatch(dir: Path, batch: seq<Name>) returns (ok: bool)
      requires IsTree(nodes) && dir in nodes && nodes[dir] == Directory
      requires forall i, j :: 0 <= i < j < |batch| ==> batch[i] != batch[j]
      requires forall n :: n in batch ==> Dots(n) || dir + [n] in nodes
      modifies this
      ensures IsTree(nodes) && Shrunk(old(nodes), nodes, dir) && dir in nodes && nodes[dir] == Directory
      ensures ok ==> forall n: Name :: dir + [n] in nodes <==> dir + [n] in old(nodes) && n !in batch
      ensures reliable ==> ok
      decreases Inside(nodes, dir), 1
    {
      hide Shrunk;
      hide IsTree;
      hide Pruned;
      ghost var before := nodes;
      ShrunkStart(before, dir);
      var i := 0;
      while i < |batch|
        invariant i <= |batch|
        invariant IsTree(nodes) && Shrunk(before, nodes, dir) && dir in nodes && nodes[dir] == Directory
        invariant forall n: Name :: dir + [n] in nodes <==> dir + [n] in before && n !in batch[..i]
      {
        var name := batch[i];
        assert batch[..i + 1] == batch[..i] + [name];
        ShrunkInside(before, nodes, dir);
        if Dots(name) {
          NoDotEntries(before, dir, name);
        } else {
          assert name !in batch[..i];
          ghost var now := nodes;
          ok := DeleteEntry(dir, name);
          ShrunkTransitive(before, now, nodes, dir, name);
          if !ok {
            return;
          }
          PrunedChild(now, dir, name);
        }
        i := i + 1;
      }
      assert batch[..i] == batch;
      ok := true;
    }

    /**
     * `deleteFolderFdRc` on an open directory. listed are the names that its listings returned, last is the result
     * that ended it. On reported success the names not listed are what is left, so the report can be trusted exactly
     * when nothing but dot entries was left unlisted, as after a listing that reached its end.
     */
    method DeleteInside(dir: Path) returns (ok: bool, ghost listed: set<Name>, ghost last: Listing)
      requires IsTree(nodes) && dir in nodes && nodes[dir] == Directory
      modifies this
      ensures IsTree(nodes) && Shrunk(old(nodes), nodes, dir) && dir in nodes && nodes[dir] == Directory
      ensures ok ==> last == End || last == OtherError
      ensures last == End ==> listed == old(Entries(dir))
      ensures ok ==> forall n: Name :: dir + [n] in nodes <==> n in old(Entries(dir)) - listed && !Dots(n)
      ensures ok ==> (nodes == Emptied(old(nodes), dir) <==> forall n :: n in old(Entries(dir)) - listed ==> Dots(n))
      ensures reliable ==> ok && last == End
      decreases Inside(nodes, dir), 2
    {
      hide IsTree;
      hide Shrunk;
      hide Children;
      hide Emptied;
      hide Inside;
      ghost var before := nodes;
      ShrunkStart(before, dir);
      var pending := Entries(dir);
      listed := {};
      ListingIsComplete(nodes, dir);
      while true
        invariant IsTree(nodes) && Shrunk(before, nodes, dir) && dir in nodes && nodes[dir] == Directory
        invariant forall n: Name :: dir + [n] in nodes <==> n in pending && !Dots(n)
        invariant listed <= old(Entries(dir)) && pending == old(Entries(dir)) - listed
        decreases pending
      {
        var listing := Getdents(pending);
        last := listing;
        if listing == NotPermitted {
          ok := false;
          return;
        }
        if !listing.Batch? {
          break;
        }
        var batch := listing.names;
        assert batch[0] in pending;
        ghost var now := nodes;
        ShrunkInside(before, nodes, dir);
        ok := DeleteBatch(dir, batch);
        ShrunkCompose(before, now, nodes, dir);
        listed := listed + set n | n in batch;
        if !ok {
          return;
        }
        pending := pending - set n | n in batch;
      }
      NothingLeftExactly(before, nodes, dir);
      assert forall n :: n in pending && !Dots(n) ==> dir + [n] in nodes;
      ok := true;
    }

    /** `deleteFolderRecursievly`: open the folder unfollowed, empty it, remove it, report how emptying went. */
    method DeleteFolder(folder: Path) returns (ok: bool)
      requires IsTree(nodes)
      modifies this
      ensures IsTree(nodes) && Shrunk(old(nodes), nodes, folder)
      ensures ok ==> old(folder in nodes && nodes[folder] == Directory) && nodes == Pruned(old(nodes), folder)
      ensures reliable ==> ok == old(folder in nodes && nodes[folder] == Directory)
    {
      ok := OpenDirectory(folder);
      if !ok {
        return;
      }
      var result, _, _ := DeleteInside(folder);
      ghost var mid := nodes;
      ok := RemoveDirectory(folder);
      if ok {
        EmptyDirectoryIsPruned(old(nodes), mid, nodes, folder);
      }
      ok := ok && result;
    }
  }

  lemma NothingLeftExactly(before: Nodes, after: Nodes, dir: Path)
    requires IsTree(after) && Shrunk(before, after, dir) && dir in after
    ensures after == Emptied(before, dir) <==> forall n: Name :: dir + [n] !in after
  {
    if forall n: Name :: dir + [n] !in after {
      NoChildrenNothingInside(after, dir);
      forall p | p in before && !(dir < p) ensures p in after {
        assert Under(dir, p) && |p| == |dir| ==> p == dir;
      }
      forall p | p in after ensures !(dir < p) {
        assert dir < p ==> p in Inside(after, dir);
      }
    }
  }

  lemma LeafIsPruned(nodes: Nodes, p: Path)
    requires IsTree(nodes) && p in nodes && nodes[p] != Directory
    ensures nodes - {p} == Pruned(nodes, p)
  {
    forall q | q in nodes && q != p ensures !Under(p, q) {
      if Under(p, q) {
        AncestorIsDirectory(nodes, p, q);
      }
    }
  }

  /** After a directory could be removed, nothing at or below it is left, whatever emptying it reported. */
  lemma EmptyDirectoryIsPruned(before: Nodes, mid: Nodes, after: Nodes, p: Path)
    requires IsTree(before) && IsTree(mid) && Shrunk(before, mid, p) && Inside(mid, p) == {} && after == mid - {p}
    ensures after == Pruned(before, p) && Shrunk(before, after, p) && IsTree(after)
  {
    forall q | q in after ensures !Under(p, q) {
      assert q in mid && q != p && (Under(p, q) && |q| == |p| ==> q == p);
      assert Under(p, q) ==> q in Inside(mid, p);
    }
    forall q | q in after && q != [] ensures Parent(q) in after {
      assert Parent(q) == p ==> q in Inside(mid, p);
    }
  }

  lemma ListingIsComplete(nodes: Nodes, dir: Path)
    requires IsTree(nodes)
    ensures forall n: Name :: dir + [n] in nodes <==> n in {".", ".."} + Children(nodes, dir) && !Dots(n)
  {
    hide Children;
    hide IsTree;
    forall n: Name ensures dir + [n] in nodes <==> n in {".", ".."} + Children(nodes, dir) && !Dots(n) {
      ChildrenExactly(nodes, dir, n);
      if Dots(n) {
        NoDotEntries(nodes, dir, n);
      }
    }
  }

  lemma PrunedIsShrunk(nodes: Nodes, p: Path)
    requires IsTree(nodes)
    ensures Shrunk(nodes, Pruned(nodes, p), p) && IsTree(Pruned(nodes, p))
  {
  }

  lemma EmptiedHasNothingInside(nodes: Nodes, p: Path)
    ensures Inside(Emptied(nodes, p), p) == {}
  {
  }

  lemma SubdirectoryIsInside(nodes: Nodes, dir: Path, name: Name)
    requires dir + [name] in nodes
    ensures Inside(nodes, dir + [name]) < Inside(nodes, dir)
  {
    var p := dir + [name];
    assert p in Inside(nodes, dir) && p !in Inside(nodes, p);
  }

  lemma NoDotEntries(nodes: Nodes, dir: Path, n: Name)
    requires IsTree(nodes) && Dots(n)
    ensures dir + [n] !in nodes
  {
  }

  lemma ShrunkInside(before: Nodes, after: Nodes, dir: Path)
    requires Shrunk(before, after, dir)
    ensures Inside(after, dir) <= Inside(before, dir)
  {
  }

  lemma PrunedChild(now: Nodes, dir: Path, name: Name)
    ensures forall n: Name :: dir + [n] in Pruned(now, dir + [name]) <==> dir + [n] in now && n != name
  {
    forall n: Name | n != name ensures !Under(dir + [name], dir + [n]) {
      assert (dir + [n])[|dir|] == n && (dir + [name])[|dir|] == name;
    }
  }

  lemma ShrunkStart(nodes: Nodes, dir: Path)
    ensures Shrunk(nodes, nodes, dir)
  {
  }

  lemma ShrunkCompose(before: Nodes, now: Nodes, after: Nodes, dir: Path)
    requires Shrunk(before, now, dir) && Shrunk(now, after, dir)
    ensures Shrunk(before, after, dir)
  {
  }

  lemma ShrunkTransitive(before: Nodes, now: Nodes, after: Nodes, dir: Path, name: Name)
    requires Shrunk(before, now, dir) && Shrunk(now, after, dir + [name])
    ensures Shrunk(before, after, dir)
    ensures dir in now ==> dir in after && after[dir] == now[dir]
    ensures forall n: Name :: n != name && dir + [n] in now ==> dir + [n] in after
  {
    forall n: Name | n != name && dir + [n] in now ensures dir + [n] in after {
      assert (dir + [n])[|dir|] == n && (dir + [name])[|dir|] == name;
    }
    forall p | p in before && !Under(dir, p) ensures p in after {
      assert Under(dir + [name], p) ==> Under(dir, p);
    }
  }
}
