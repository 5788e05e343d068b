/**
 * An in-memory filesystem standing for the calls the rake tasks make:
 * `Dir.mkdir`, `File.open(.., 'w')`, `File.chmod(0755, ..)`,
 * `FileUtils.rm_rf`, `File.exists?`, `File.directory?` and the recursive
 * `Dir[..]` glob. Paths are written without a trailing slash ("deb/usr").
 */
module Files {
  type Path = string

  datatype Node = Directory | File(content: string, executable: bool)

  /** The nodes by path, and the order in which the paths were created. */
  datatype Fs = Fs(order: seq<Path>, nodes: map<Path, Node>)

  /** Every node is listed once in the creation order, and nothing else is. */
  ghost predicate Valid(fs: Fs)
  {
    && (forall i, j :: 0 <= i < j < |fs.order| ==> fs.order[i] != fs.order[j])
    && (forall p :: p in fs.nodes <==> p in fs.order)
  }

  predicate IsFile(fs: Fs, p: Path)
  {
    p in fs.nodes && fs.nodes[p].File?
  }

  /** `Dir.mkdir(p) unless File.exists?(p)`. */
  function Mkdir(fs: Fs, p: Path): Fs
  {
    if p in fs.nodes then fs else Fs(fs.order + [p], fs.nodes[p := Directory])
  }

  /**
   * `File.open(p, 'w') { |f| f.write(c) }`: an existing file keeps its mode;
   * a new one is created without the executable bit.
   */
  function Write(fs: Fs, p: Path, c: string): Fs
  {
    if p in fs.nodes then
      var exec := fs.nodes[p].File? && fs.nodes[p].executable;
      Fs(fs.order, fs.nodes[p := File(c, exec)])
    else Fs(fs.order + [p], fs.nodes[p := File(c, false)])
  }

  /** `File.chmod(0755, p)` on a file. */
  function Chmod(fs: Fs, p: Path): Fs
  {
    if IsFile(fs, p) then Fs(fs.order, fs.nodes[p := File(fs.nodes[p].content, true)]) else fs
  }

  /** The path is the root or lies below it. */
  predicate Under(p: Path, root: Path)
  {
    p == root || root + "/" <= p
  }

  function KeepOutside(order: seq<Path>, root: Path): (r: seq<Path>)
    ensures forall p :: p in r <==> p in order && !Under(p, root)
  {
    if order == [] then []
    else (if Under(order[0], root) then [] else [order[0]]) + KeepOutside(order[1..], root)
  }

  /** `FileUtils.rm_rf(root)`: the root and everything below it go. */
  function RemoveTree(fs: Fs, root: Path): Fs
  {
    Fs(KeepOutside(fs.order, root), map p | p in fs.nodes && !Under(p, root) :: fs.nodes[p])
  }

  /** A relative path none of whose components starts with a dot. */
  predicate Visible(rel: Path)
  {
    forall i :: 0 <= i < |rel| && (i == 0 || rel[i - 1] == '/') ==> rel[i] != '.'
  }

  /** The path lies strictly below root and is not hidden there. */
  predicate Listed(p: Path, root: Path)
  {
    root + "/" <= p && |p| > |root| + 1 && Visible(p[|root| + 1..])
  }

  /** The recursive glob of line 180: every visible path below root, in creation order. */
  function Glob(order: seq<Path>, root: Path): (r: seq<Path>)
    ensures forall p :: p in r <==> p in order && Listed(p, root)
    ensures |r| <= |order|
  {
    if order == [] then []
    else (if Listed(order[0], root) then [order[0]] else []) + Glob(order[1..], root)
  }

  /** No path is listed twice. */
  predicate Distinct(ps: seq<Path>)
  {
    forall i, j :: 0 <= i < j < |ps| ==> ps[i] != ps[j]
  }

  lemma {:induction false} GlobDistinct(order: seq<Path>, root: Path)
    requires Distinct(order)
    ensures Distinct(Glob(order, root))
  {
    if order != [] {
      assert Distinct(order[1..]) by {
        forall i, j | 0 <= i < j < |order[1..]| ensures order[1..][i] != order[1..][j] {
          assert order[1..][i] == order[i + 1] && order[1..][j] == order[j + 1];
        }
      }
      GlobDistinct(order[1..], root);
      var rest := Glob(order[1..], root);
      assert order[0] !in rest by {
        assert order[0] !in order[1..] by {
          forall k | 0 <= k < |order[1..]| ensures order[1..][k] != order[0] {
            assert order[1..][k] == order[k + 1];
          }
        }
      }
    }
  }

  /**
   * `mkdir` keeps the filesystem well formed, creates p unless it exists, and
   * changes no other path.
   */
  lemma MkdirEffect(fs: Fs, p: Path)
    ensures Valid(fs) ==> Valid(Mkdir(fs, p))
    ensures p in Mkdir(fs, p).nodes
    ensures p !in fs.nodes ==> Mkdir(fs, p).nodes[p] == Directory
    ensures forall q :: q != p ==> (q in Mkdir(fs, p).nodes <==> q in fs.nodes)
    ensures forall q :: q in fs.nodes ==> Mkdir(fs, p).nodes[q] == fs.nodes[q]
  {
  }

  /**
   * Writing keeps the filesystem well formed, leaves a file at p with the
   * given content, executable only if it already was, and changes no other path.
   */
  lemma WriteEffect(fs: Fs, p: Path, c: string)
    ensures Valid(fs) ==> Valid(Write(fs, p, c))
    ensures IsFile(Write(fs, p, c), p) && Write(fs, p, c).nodes[p].content == c
    ensures Write(fs, p, c).nodes[p].executable <==> IsFile(fs, p) && fs.nodes[p].executable
    ensures forall q :: q != p ==> (q in Write(fs, p, c).nodes <==> q in fs.nodes)
    ensures forall q :: q != p && q in fs.nodes ==> Write(fs, p, c).nodes[q] == fs.nodes[q]
  {
  }

  /** `chmod` makes a file executable, keeps its content and changes nothing else. */
  lemma ChmodEffect(fs: Fs, p: Path)
    ensures Valid(fs) ==> Valid(Chmod(fs, p))
    ensures Chmod(fs, p).order == fs.order && Chmod(fs, p).nodes.Keys == fs.nodes.Keys
    ensures IsFile(fs, p) ==> Chmod(fs, p).nodes[p] == File(fs.nodes[p].content, true)
    ensures forall q :: q != p && q in fs.nodes ==> Chmod(fs, p).nodes[q] == fs.nodes[q]
  {
  }

  /** Writing a file with the content it already holds changes nothing. */
  lemma WriteSame(fs: Fs, p: Path, c: string)
    requires IsFile(fs, p) && fs.nodes[p].content == c
    ensures Write(fs, p, c) == fs
  {
    assert fs.nodes[p := File(c, fs.nodes[p].executable)] == fs.nodes;
  }

  /** Making an executable file executable changes nothing. */
  lemma ChmodSame(fs: Fs, p: Path)
    requires IsFile(fs, p) && fs.nodes[p].executable
    ensures Chmod(fs, p) == fs
  {
    assert fs.nodes[p := File(fs.nodes[p].content, true)] == fs.nodes;
  }

  lemma {:induction false} KeepOutsideDistinct(order: seq<Path>, root: Path)
    requires Distinct(order)
    ensures Distinct(KeepOutside(order, root))
  {
    if order != [] {
      assert Distinct(order[1..]) by {
        forall i, j | 0 <= i < j < |order[1..]| ensures order[1..][i] != order[1..][j] {
          assert order[1..][i] == order[i + 1] && order[1..][j] == order[j + 1];
        }
      }
      KeepOutsideDistinct(order[1..], root);
      assert order[0] !in order[1..] by {
        forall k | 0 <= k < |order[1..]| ensures order[1..][k] != order[0] {
          assert order[1..][k] == order[k + 1];
        }
      }
    }
  }

  /**
   * `rm_rf` leaves exactly the nodes outside the tree, unchanged, and the
   * filesystem well formed.
   */
  lemma RemoveTreeValid(fs: Fs, root: Path)
    requires Valid(fs)
    ensures Valid(RemoveTree(fs, root))
    ensures forall q :: q in RemoveTree(fs, root).nodes <==> q in fs.nodes && !Under(q, root)
    ensures forall q :: q in RemoveTree(fs, root).nodes ==> RemoveTree(fs, root).nodes[q] == fs.nodes[q]
  {
    KeepOutsideDistinct(fs.order, root);
  }

  /** Nothing in the order lies in the tree: removing it keeps the order. */
  lemma {:induction false} KeepOutsideAll(order: seq<Path>, root: Path)
    requires forall p :: p in order ==> !Under(p, root)
    ensures KeepOutside(order, root) == order
  {
    if order != [] {
      assert order[0] in order;
      KeepOutsideAll(order[1..], root);
    }
  }

  lemma {:induction false} KeepOutsideAppend(a: seq<Path>, b: seq<Path>, root: Path)
    ensures KeepOutside(a + b, root) == KeepOutside(a, root) + KeepOutside(b, root)
  {
    if a == [] {
      assert a + b == b;
    } else {
      assert (a + b)[1..] == a[1..] + b;
      KeepOutsideAppend(a[1..], b, root);
    }
  }

  lemma {:induction false} KeepOutsideNone(order: seq<Path>, root: Path)
    requires forall p :: p in order ==> Under(p, root)
    ensures KeepOutside(order, root) == []
  {
    if order != [] {
      assert order[0] in order;
      KeepOutsideNone(order[1..], root);
    }
  }

  /**
   * `later` only added paths inside the tree to `earlier` and changed nothing
   * outside it.
   */
  ghost predicate GrewInside(earlier: Fs, later: Fs, root: Path)
  {
    && earlier.order <= later.order
    && (forall i :: |earlier.order| <= i < |later.order| ==> Under(later.order[i], root))
    && (forall q :: !Under(q, root) ==> (q in later.nodes <==> q in earlier.nodes))
    && (forall q :: !Under(q, root) && q in earlier.nodes ==> later.nodes[q] == earlier.nodes[q])
  }

  /** Path q is present in `later` exactly when in `earlier`, with the same node. */
  predicate Kept(earlier: Fs, later: Fs, q: Path)
  {
    && (q in later.nodes <==> q in earlier.nodes)
    && (q in earlier.nodes ==> later.nodes[q] == earlier.nodes[q])
  }

  lemma GrewInsideRefl(fs: Fs, root: Path)
    ensures GrewInside(fs, fs, root)
  {
  }

  lemma GrewInsideTrans(a: Fs, b: Fs, c: Fs, root: Path)
    requires GrewInside(a, b, root) && GrewInside(b, c, root)
    ensures GrewInside(a, c, root)
  {
    assert forall i :: 0 <= i < |b.order| ==> c.order[i] == b.order[i];
  }

  lemma MkdirInside(fs: Fs, p: Path, root: Path)
    requires Under(p, root)
    ensures GrewInside(fs, Mkdir(fs, p), root)
  {
  }

  lemma WriteInside(fs: Fs, p: Path, c: string, root: Path)
    requires Under(p, root)
    ensures GrewInside(fs, Write(fs, p, c), root)
  {
  }

  lemma ChmodInside(fs: Fs, p: Path, root: Path)
    requires Under(p, root)
    ensures GrewInside(fs, Chmod(fs, p), root)
  {
  }

  /**
   * Removing the tree undoes any growth inside it, when the tree was empty to
   * begin with.
   */
  lemma RemoveUndoesGrowthOrder(earlier: Fs, later: Fs, root: Path)
    requires forall p :: p in earlier.order ==> !Under(p, root)
    requires GrewInside(earlier, later, root)
    ensures KeepOutside(later.order, root) == earlier.order
  {
    var extra := later.order[|earlier.order|..];
    assert later.order == earlier.order + extra;
    forall p | p in extra ensures Under(p, root) {
      var k :| 0 <= k < |extra| && extra[k] == p;
      assert later.order[|earlier.order| + k] == p;
    }
    KeepOutsideAppend(earlier.order, extra, root);
    KeepOutsideAll(earlier.order, root);
    KeepOutsideNone(extra, root);
  }

  lemma RemoveUndoesGrowth(earlier: Fs, later: Fs, root: Path)
    requires Valid(earlier)
    requires forall p :: p in earlier.nodes ==> !Under(p, root)
    requires GrewInside(earlier, later, root)
    ensures RemoveTree(later, root) == earlier
  {
    RemoveUndoesGrowthOrder(earlier, later, root);
    var m := RemoveTree(later, root).nodes;
    forall q ensures q in m <==> q in earlier.nodes {
    }
    forall q | q in m ensures m[q] == earlier.nodes[q] {
    }
    assert m == earlier.nodes;
  }
}
