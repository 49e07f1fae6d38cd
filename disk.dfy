/**
 * The on-disk directory tree and the Node `fs` primitives the sandboxed layer calls
 * (`existsSync`, `writeFileSync`, `mkdirSync` with `recursive`, `rmSync` with `recursive`, `renameSync`).
 * The whole filesystem is one map from absolute locations to entries; "/" (`[]`) is an implicit folder.
 */
module Disk {
  import opened Paths
  import opened Errors

  datatype Entry = File(content: string) | Folder

  type Disk = map<Path, Entry>

  /** `fs.existsSync`. */
  predicate Exists(d: Disk, p: Path)
    ensures IsFolder(d, p) ==> Exists(d, p)
    ensures Exists(d, p) && !IsFolder(d, p) <==> p != [] && p in d && d[p].File?
  {
    p == [] || p in d
  }

  predicate IsFolder(d: Disk, p: Path)
  {
    p == [] || (p in d && d[p].Folder?)
  }

  /** `path.dirname`: the folder holding `p` ("/" is its own). */
  function Parent(p: Path): Path
  {
    if p == [] then [] else p[..|p| - 1]
  }

  /** `path.dirname` drops the last segment; "/" is its own folder. */
  lemma ParentDropsLast(p: Path)
    ensures p == [] ==> Parent(p) == []
    ensures p != [] ==> Parent(p) + [p[|p| - 1]] == p && |Parent(p)| == |p| - 1
  {
    if p != [] {
      assert p[..|p| - 1] + [p[|p| - 1]] == p;
    }
  }

  /**
   * A directory tree: every entry has a name a file system can store and lives in a folder that exists.
   * (The trigger keeps the solver from chasing parents of parents on its own.)
   */
  predicate WellFormed(d: Disk)
  {
    forall p {:trigger Parent(p)} :: p in d ==> p != [] && EntryName(p[|p| - 1]) && IsFolder(d, Parent(p))
  }

  /** Some proper ancestor of `p` is a file, so no lookup below it can succeed. */
  predicate Blocked(d: Disk, p: Path)
  {
    exists k :: 0 < k < |p| && p[..k] in d && d[p[..k]].File?
  }

  /** The code Node reports when the folder that should hold `p` is not there. */
  function MissingParentCode(d: Disk, p: Path): (r: IoCode)
    ensures r == ENOENT || r == ENOTDIR
    ensures r == ENOTDIR <==> exists k :: 0 < k < |p| && p[..k] in d && d[p[..k]].File?
  {
    if Blocked(d, p) then ENOTDIR else ENOENT
  }

  /** What a tree promises about one of its entries. */
  lemma EntryInFolder(d: Disk, p: Path)
    requires WellFormed(d) && p in d
    ensures p != [] && EntryName(p[|p| - 1]) && IsFolder(d, Parent(p))
  {
    var up := Parent(p);
  }

  /** Every ancestor of an entry of a tree is a folder. */
  lemma {:induction false} AncestorsAreFolders(d: Disk, p: Path, k: nat)
    requires WellFormed(d) && p in d && k < |p|
    ensures IsFolder(d, p[..k])
    decreases |p| - k
  {
    EntryInFolder(d, p);
    var up := Parent(p);
    if k < |up| {
      AncestorsAreFolders(d, up, k);
      assert up[..k] == p[..k];
    }
  }

  /** Every location in a tree is made of storable names. */
  lemma EntriesAreNormal(d: Disk, p: Path)
    requires WellFormed(d) && p in d
    ensures Normal(p) && NulFree(p)
  {
    forall i | 0 <= i < |p| ensures EntryName(p[i]) {
      if i < |p| - 1 {
        AncestorsAreFolders(d, p, i + 1);
        EntryInFolder(d, p[..i + 1]);
        assert p[..i + 1][i] == p[i];
      } else {
        EntryInFolder(d, p);
      }
    }
  }

  /** A location with a NUL character in it is never on disk, so `fs.existsSync` answers false for it. */
  lemma NulNeverExists(d: Disk, p: Path)
    requires WellFormed(d) && !NulFree(p)
    ensures !Exists(d, p)
  {
    if p in d {
      EntriesAreNormal(d, p);
    }
  }

  /** Nothing lies below a location that does not exist. */
  lemma NoEntriesBelowMissing(d: Disk, p: Path, q: Path)
    requires WellFormed(d) && !Exists(d, p) && p < q
    ensures q !in d
  {
    if q in d {
      assert q[..|p|] == p;
      AncestorsAreFolders(d, q, |p|);
      assert false;
    }
  }

  /**
   * `fs.writeFileSync(p, c)`: create or overwrite the file `p`; its folder must already exist.
   * A path with a NUL character is refused before the file system is asked.
   */
  function WriteFileSync(d: Disk, p: Path, c: string): (r: Result<Disk>)
    ensures !NulFree(p) ==> r == Err(InvalidArgValue)
    ensures NulFree(p) && IsFolder(d, p) ==> r == Err(IoError(EISDIR))
    ensures NulFree(p) && !IsFolder(d, p) && !IsFolder(d, Parent(p)) ==> r == Err(IoError(MissingParentCode(d, p)))
    ensures r.Ok? <==> NulFree(p) && IsFolder(d, Parent(p)) && !IsFolder(d, p)
    ensures r.Ok? ==> p in r.value && r.value[p] == File(c)
    ensures r.Ok? ==> forall q :: q != p ==> (q in r.value <==> q in d)
    ensures r.Ok? ==> forall q :: q in d && q != p ==> r.value[q] == d[q]
    ensures WellFormed(d) && Normal(p) && r.Ok? ==> WellFormed(r.value)
  {
    if !NulFree(p) then Err(InvalidArgValue)
    else if IsFolder(d, p) then Err(IoError(EISDIR))
    else if !IsFolder(d, Parent(p)) then Err(IoError(MissingParentCode(d, p)))
    else
      var r := d[p := File(c)];
      assert WellFormed(d) && Normal(p) ==> WellFormed(r) by {
        if WellFormed(d) && Normal(p) {
          forall q | q in r ensures q != [] && EntryName(q[|q| - 1]) && IsFolder(r, Parent(q)) {
            if q != p {
              EntryInFolder(d, q);
            }
          }
        }
      }
      Ok(r)
  }

  /** The non-empty prefixes of `p`: `p` and its ancestors below "/". */
  function Prefixes(p: Path): (r: set<Path>)
    ensures forall q :: q in r <==> q != [] && q <= p
  {
    var r := set k | 1 <= k <= |p| :: p[..k];
    assert forall q :: q != [] && q <= p ==> q == p[..|q|];
    r
  }

  /** The folders `fs.mkdirSync(p, { recursive: true })` creates: `p` and each missing ancestor. */
  function AddFolders(d: Disk, p: Path): (r: Disk)
    ensures forall q :: q in d ==> q in r && r[q] == d[q]
    ensures forall q :: q in r <==> q in d || (q != [] && q <= p)
    ensures forall q :: q in r && q !in d ==> r[q] == Folder
  {
    d + map q | q in Prefixes(p) && q !in d :: Folder
  }

  lemma AddFoldersWellFormed(d: Disk, p: Path)
    requires WellFormed(d) && Normal(p) && NulFree(p) && !Blocked(d, p) && (p in d ==> d[p].Folder?)
    ensures IsFolder(AddFolders(d, p), p)
    ensures WellFormed(AddFolders(d, p))
  {
    var r := AddFolders(d, p);
    forall q | q in r ensures q != [] && EntryName(q[|q| - 1]) && IsFolder(r, Parent(q)) {
      if q in d {
        EntryInFolder(d, q);
      } else {
        var up := Parent(q);
        assert q == p[..|q|];
        assert q[|q| - 1] == p[|q| - 1];
        if up != [] {
          assert up == p[..|up|];
          assert up in r;
          if up in d {
            assert d[up].Folder?;
          }
        }
      }
    }
  }

  /** `fs.mkdirSync(p, { recursive: true })`; a path with a NUL character is refused before the file system is asked. */
  function MkdirRecursive(d: Disk, p: Path): (r: Result<Disk>)
    requires WellFormed(d) && Normal(p)
    ensures r.Err? <==> !NulFree(p) || (p in d && d[p].File?) || Blocked(d, p)
    ensures !NulFree(p) ==> r == Err(InvalidArgValue)
    ensures NulFree(p) && p in d && d[p].File? ==> r == Err(IoError(EEXIST))
    ensures NulFree(p) && p !in d && Blocked(d, p) ==> r == Err(IoError(ENOTDIR))
    ensures r.Ok? ==> IsFolder(r.value, p) && WellFormed(r.value)
    ensures r.Ok? ==> forall q :: q in d ==> q in r.value && r.value[q] == d[q]
    ensures r.Ok? ==> forall q :: q in r.value <==> q in d || (q != [] && q <= p)
  {
    if !NulFree(p) then
      NulNeverExists(d, p);
      Err(InvalidArgValue)
    else if IsFolder(d, p) then
      assert !Blocked(d, p) by {
        if p != [] {
          forall k | 0 < k < |p| ensures !(p[..k] in d && d[p[..k]].File?) {
            AncestorsAreFolders(d, p, k);
          }
        }
      }
      assert forall q :: q != [] && q <= p ==> q in d by {
        forall q | q != [] && q <= p ensures q in d {
          if q != p {
            assert p[..|q|] == q;
            AncestorsAreFolders(d, p, |q|);
          }
        }
      }
      assert p in d ==> d[p].Folder? by {
        if p in d {
          EntryInFolder(d, p);
        }
      }
      Ok(d)
    else if p in d then Err(IoError(EEXIST))
    else if Blocked(d, p) then Err(IoError(ENOTDIR))
    else
      AddFoldersWellFormed(d, p);
      Ok(AddFolders(d, p))
  }

  /** `fs.rmSync(p, { recursive: true, force: true })`: `p` and everything below it go. */
  function RmRecursive(d: Disk, p: Path): (r: Disk)
    ensures forall q :: q in r <==> q in d && !(p <= q)
    ensures forall q :: q in r ==> r[q] == d[q]
    ensures WellFormed(d) ==> WellFormed(r)
  {
    var r := map q | q in d && !(p <= q) :: d[q];
    assert WellFormed(d) ==> WellFormed(r) by {
      if WellFormed(d) {
        forall q | q in r ensures q != [] && EntryName(q[|q| - 1]) && IsFolder(r, Parent(q)) {
          EntryInFolder(d, q);
        }
      }
    }
    r
  }

  /** The locations the entries at and below `src` take when that subtree is re-rooted at `dst`. */
  function Relocated(d: Disk, src: Path, dst: Path): (r: set<Path>)
    ensures forall q {:trigger q in r} :: q in r <==> dst <= q && src + q[|dst|..] in d
  {
    var r := set q | q in d && src <= q :: dst + q[|src|..];
    assert forall q :: q in r <==> dst <= q && src + q[|dst|..] in d by {
      forall q ensures q in r <==> dst <= q && src + q[|dst|..] in d {
        if dst <= q && src + q[|dst|..] in d {
          var q' := src + q[|dst|..];
          assert q'[|src|..] == q[|dst|..];
          assert q == dst + q'[|src|..];
        }
        if q in r {
          var q' :| q' in d && src <= q' && q == dst + q'[|src|..];
          assert q[|dst|..] == q'[|src|..];
          assert src + q[|dst|..] == q';
        }
      }
    }
    r
  }

  /** The tree after the subtree at `src` is re-rooted at `dst`. */
  function MoveTree(d: Disk, src: Path, dst: Path): (r: Disk)
    ensures forall q {:trigger q in r} :: q in r <==> (q in d && !(src <= q)) || (dst <= q && src + q[|dst|..] in d)
    ensures forall q {:trigger r[q]} :: dst <= q && src + q[|dst|..] in d ==> r[q] == d[src + q[|dst|..]]
    ensures forall q {:trigger r[q]} :: q in d && !(src <= q) && !(dst <= q) ==> r[q] == d[q]
  {
    var kept := map q | q in d && !(src <= q) :: d[q];
    var moved := map q | q in Relocated(d, src, dst) :: d[src + q[|dst|..]];
    kept + moved
  }

  /**
   * `fs.renameSync(src, dst)` where `src` exists and `dst` does not (its caller checks both): the
   * target must have a NUL-free name and a folder to land in, and must not lie inside the source.
   */
  function RenameSync(d: Disk, src: Path, dst: Path): (r: Result<Disk>)
    requires Exists(d, src) && !Exists(d, dst)
    ensures !NulFree(dst) ==> r == Err(InvalidArgValue)
    ensures NulFree(dst) && !IsFolder(d, Parent(dst)) ==> r == Err(IoError(MissingParentCode(d, dst)))
    ensures NulFree(dst) && IsFolder(d, Parent(dst)) && src <= dst ==> r == Err(IoError(EINVAL))
    ensures r.Ok? <==> NulFree(dst) && IsFolder(d, Parent(dst)) && !(src <= dst)
    ensures r.Ok? ==> r.value == MoveTree(d, src, dst)
  {
    if !NulFree(dst) then Err(InvalidArgValue)
    else if !IsFolder(d, Parent(dst)) then Err(IoError(MissingParentCode(d, dst)))
    else if src <= dst then Err(IoError(EINVAL))
    else Ok(MoveTree(d, src, dst))
  }

  /** Re-rooting keeps every entry outside both subtrees as it was. */
  lemma MoveTreeKeeps(d: Disk, src: Path, dst: Path, q: Path)
    requires WellFormed(d) && !Exists(d, dst) && q in d && !(src <= q)
    ensures q in MoveTree(d, src, dst) && MoveTree(d, src, dst)[q] == d[q]
  {
    if dst <= q {
      assert q != dst;
      NoEntriesBelowMissing(d, dst, q);
      assert false;
    }
  }

  /** Re-rooting carries each entry of the subtree to the same place below `dst`. */
  lemma MoveTreeCarries(d: Disk, src: Path, dst: Path, s: Path)
    requires src + s in d
    ensures dst + s in MoveTree(d, src, dst) && MoveTree(d, src, dst)[dst + s] == d[src + s]
  {
    assert (dst + s)[|dst|..] == s;
  }

  /** Re-rooting away from `src` leaves nothing at `src`. */
  lemma MoveTreeVacates(d: Disk, src: Path, dst: Path)
    requires WellFormed(d) && !Exists(d, dst)
    ensures src !in MoveTree(d, src, dst)
  {
    if src in MoveTree(d, src, dst) {
      assert dst <= src && src + src[|dst|..] in d;
      if dst != src {
        NoEntriesBelowMissing(d, dst, src + src[|dst|..]);
      }
      assert false;
    }
  }

  /** An entry outside the moved subtree keeps its folder. */
  lemma MoveTreeKeepsPlace(d: Disk, src: Path, dst: Path, q: Path)
    requires WellFormed(d) && src != [] && !Exists(d, dst) && q in d && !(src <= q)
    ensures q in MoveTree(d, src, dst) && IsFolder(MoveTree(d, src, dst), Parent(q))
  {
    EntryInFolder(d, q);
    var up := Parent(q);
    MoveTreeKeeps(d, src, dst, q);
    if up != [] {
      assert src <= up ==> src <= q;
      MoveTreeKeeps(d, src, dst, up);
    }
  }

  /** A moved entry lands in a folder: the target's parent, or the moved copy of its old folder. */
  lemma MoveTreeMovesPlace(d: Disk, src: Path, dst: Path, s: Path)
    requires WellFormed(d) && Normal(dst) && NulFree(dst) && src != [] && !Exists(d, dst) && !(src <= dst)
    requires IsFolder(d, Parent(dst)) && src + s in d
    ensures dst + s != [] && EntryName((dst + s)[|dst + s| - 1])
    ensures IsFolder(MoveTree(d, src, dst), Parent(dst + s))
  {
    var q := dst + s;
    EntryInFolder(d, src + s);
    if s == [] {
      var up := Parent(dst);
      assert q == dst;
      if up != [] {
        assert src <= up ==> src <= dst;
        MoveTreeKeeps(d, src, dst, up);
      }
    } else {
      var s' := s[..|s| - 1];
      assert Parent(q) == dst + s';
      assert Parent(src + s) == src + s';
      assert (src + s)[|src + s| - 1] == q[|q| - 1];
      MoveTreeCarries(d, src, dst, s');
    }
  }

  /** A successful rename of a tree into a folder leaves a tree. */
  lemma MoveTreeWellFormed(d: Disk, src: Path, dst: Path)
    requires WellFormed(d) && Normal(dst) && NulFree(dst) && src != [] && !Exists(d, dst) && !(src <= dst)
    requires IsFolder(d, Parent(dst))
    ensures WellFormed(MoveTree(d, src, dst))
  {
    var r := MoveTree(d, src, dst);
    forall q | q in r ensures q != [] && EntryName(q[|q| - 1]) && IsFolder(r, Parent(q)) {
      if q in d && !(src <= q) {
        EntryInFolder(d, q);
        MoveTreeKeepsPlace(d, src, dst, q);
      } else {
        var s := q[|dst|..];
        assert q == dst + s;
        MoveTreeMovesPlace(d, src, dst, s);
      }
    }
  }

  /** A location blocked below its parent is blocked because of an ancestor, and vice versa. */
  lemma BlockedViaParent(d: Disk, p: Path)
    requires p != [] && Parent(p) !in d
    ensures Blocked(d, p) <==> Blocked(d, Parent(p))
  {
    var up := Parent(p);
    if Blocked(d, p) {
      var k :| 0 < k < |p| && p[..k] in d && d[p[..k]].File?;
      assert k < |up| && up[..k] == p[..k];
    }
    if Blocked(d, up) {
      var k :| 0 < k < |up| && up[..k] in d && d[up[..k]].File?;
      assert p[..k] == up[..k];
    }
  }

  /** Below a folder of a tree nothing is blocked: every ancestor is a folder. */
  lemma FolderNotBlocked(d: Disk, p: Path)
    requires WellFormed(d) && p != [] && IsFolder(d, Parent(p))
    ensures !Blocked(d, p)
  {
    var up := Parent(p);
    forall k | 0 < k < |p| ensures !(p[..k] in d && d[p[..k]].File?) {
      if k < |up| {
        AncestorsAreFolders(d, up, k);
        assert up[..k] == p[..k];
      } else {
        assert p[..k] == up;
      }
    }
  }

  /**
   * `if (!fs.existsSync(dirname(dst))) fs.mkdirSync(dirname(dst), { recursive: true })`:
   * make sure the folder meant to hold `dst` is there.
   */
  function PrepareTarget(d: Disk, dst: Path): (r: Result<Disk>)
    requires WellFormed(d) && Normal(dst) && dst != [] && !Exists(d, dst)
    ensures r.Err? <==> !Exists(d, Parent(dst)) && (!NulFree(Parent(dst)) || Blocked(d, dst))
    ensures r.Err? ==> r.error == (if NulFree(Parent(dst)) then IoError(ENOTDIR) else InvalidArgValue)
    ensures Exists(d, Parent(dst)) ==> r == Ok(d)
    ensures r.Ok? ==> WellFormed(r.value) && !Exists(r.value, dst)
    ensures r.Ok? ==> (IsFolder(r.value, Parent(dst)) <==> !Blocked(d, dst))
    ensures r.Ok? ==> forall q :: q in r.value <==> q in d || (q != [] && q < dst)
    ensures r.Ok? ==> forall q :: q in d ==> r.value[q] == d[q]
    ensures r.Ok? ==> forall q :: q in r.value && q !in d ==> r.value[q] == Folder
  {
    var up := Parent(dst);
    assert Normal(up);
    if Exists(d, up) then
      assert forall q :: q != [] && q < dst ==> q in d by {
        forall q | q != [] && q < dst ensures q in d {
          if q != up {
            assert q == up[..|q|];
            AncestorsAreFolders(d, up, |q|);
          }
        }
      }
      assert IsFolder(d, up) <==> !Blocked(d, dst) by {
        if IsFolder(d, up) {
          FolderNotBlocked(d, dst);
        } else {
          assert dst[..|dst| - 1] == up;
        }
      }
      Ok(d)
    else
      BlockedViaParent(d, dst);
      var m := MkdirRecursive(d, up);
      if m.Ok? then
        assert !Blocked(d, dst);
        assert dst !in m.value;
        Ok(m.value)
      else
        m
  }

  /** Two prefixes of one location are prefixes of one another. */
  lemma PrefixesNest(a: Path, b: Path, q: Path)
    requires a <= q && b <= q
    ensures a <= b || b <= a
  {
    if |a| <= |b| {
      assert a == q[..|a|] == b[..|a|];
    } else {
      assert b == q[..|b|] == a[..|b|];
    }
  }

  /**
   * After the target's folder is prepared (`e` extends `d` by folders above `dst` only), moving `src`
   * to `dst` keeps everything else, carries the subtree, empties `src` and adds nothing unexpected.
   */
  lemma MoveAfterPrepare(d: Disk, e: Disk, src: Path, dst: Path)
    requires WellFormed(d) && WellFormed(e) && src != [] && src in d && !Exists(e, dst) && !(src <= dst)
    requires forall q :: q in e <==> q in d || (q != [] && q < dst)
    requires forall q :: q in d ==> e[q] == d[q]
    requires forall q :: q in e && q !in d ==> e[q] == Folder
    ensures var r := MoveTree(e, src, dst);
      && (forall q :: q in d && !(src <= q) ==> q in r && r[q] == d[q])
      && (forall s :: src + s in d ==> dst + s in r && r[dst + s] == d[src + s])
      && (forall q :: src <= q ==> q !in r)
      && (forall q :: q in r && q !in d ==> dst <= q || (q < dst && r[q] == Folder))
      && (forall s :: dst + s in r ==> src + s in d)
  {
    var r := MoveTree(e, src, dst);
    forall q | q in d && !(src <= q) ensures q in r && r[q] == d[q] {
      MoveTreeKeeps(e, src, dst, q);
    }
    forall s | src + s in d ensures dst + s in r && r[dst + s] == d[src + s] {
      MoveTreeCarries(e, src, dst, s);
    }
    forall q | src <= q ensures q !in r {
      if q in r {
        if q in e && !(src <= q) {
        } else {
          PrefixesNest(src, dst, q);
          NoEntriesBelowMissing(e, dst, src);
          assert false;
        }
      }
    }
    forall q | q in r && q !in d ensures dst <= q || (q < dst && r[q] == Folder) {
      if !(dst <= q) {
        assert q in e && !(src <= q);
        assert q != [] && q < dst;
      }
    }
    forall s | dst + s in r ensures src + s in d {
      MovedFromSource(d, e, src, dst, s);
    }
  }

  /** Below `dst`, the tree after the move holds only what was below `src` before the folders were added. */
  lemma MovedFromSource(d: Disk, e: Disk, src: Path, dst: Path, s: Path)
    requires WellFormed(e) && !Exists(e, dst) && !(src <= dst)
    requires forall q :: q in e <==> q in d || (q != [] && q < dst)
    requires dst + s in MoveTree(e, src, dst)
    ensures src + s in d
  {
    var q := dst + s;
    assert q[|dst|..] == s;
    assert s == [] ==> q == dst;
    if q in e && !(src <= q) {
      if s != [] {
        NoEntriesBelowMissing(e, dst, q);
      }
      assert false;
    }
    assert src + s in e && src <= src + s;
  }
}
