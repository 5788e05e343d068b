/**
 * What the `deb:create_structure`, `deb:build` and `deb:clean` tasks (lines
 * 141-207) do to the filesystem, as functions from the filesystem before to
 * the filesystem after. The `md5sum` program is the parameter `md5`.
 */
module Staging {
  import opened Wrappers
  import opened Text
  import opened Control
  import opened Templates
  import opened Files

  const DebDir: Path := "deb"
  const DebianDir: Path := "deb/DEBIAN"
  const UsrDir: Path := "deb/usr"
  const BinDir: Path := "deb/usr/bin"
  const ControlPath: Path := "deb/DEBIAN/control"
  const PostinstPath: Path := "deb/DEBIAN/postinst"
  const PrermPath: Path := "deb/DEBIAN/prerm"
  const Md5sumsPath: Path := "deb/DEBIAN/md5sums"
  const DpkgDebPath: Path := "/usr/bin/dpkg-deb"

  /** The installed program that makes a wrapper unnecessary (line 155). */
  function SystemBin(bin: string): Path
  {
    "/usr/bin/" + bin
  }

  /** Where the wrapper for a binary goes (line 169). */
  function StagedBin(bin: string): Path
  {
    "deb/usr/bin/" + bin
  }

  /** One pass of the loop of lines 154-172. */
  function StageWrapper(fs: Fs, bin: string): Fs
  {
    if SystemBin(bin) in fs.nodes then fs
    else
      var dirs := Mkdir(Mkdir(fs, UsrDir), BinDir);
      Chmod(Write(dirs, StagedBin(bin), Wrapper(bin)), StagedBin(bin))
  }

  /** The loop of lines 154-172 over the listed binaries, first to last. */
  function StageWrappers(fs: Fs, bins: seq<string>): Fs
  {
    if bins == [] then fs else StageWrapper(StageWrappers(fs, bins[..|bins| - 1]), bins[|bins| - 1])
  }

  /** The output of `md5sum path` for a file with that content. */
  function Md5Line(md5: string -> string, path: Path, content: string): string
  {
    md5(content) + "  " + path + "\n"
  }

  /** The listed paths that are files (line 181), in order. */
  function FilesAmong(fs: Fs, paths: seq<Path>): (r: seq<Path>)
    ensures forall p :: p in r <==> p in paths && IsFile(fs, p)
  {
    if paths == [] then []
    else
      var front := FilesAmong(fs, paths[..|paths| - 1]);
      var p := paths[|paths| - 1];
      assert forall q :: q in paths <==> q in paths[..|paths| - 1] || q == p;
      if IsFile(fs, p) then front + [p] else front
  }

  /** The `md5sum` lines of the listed paths that are files, in order. */
  function Md5Lines(md5: string -> string, fs: Fs, paths: seq<Path>): seq<string>
  {
    if paths == [] then []
    else
      var front := Md5Lines(md5, fs, paths[..|paths| - 1]);
      var p := paths[|paths| - 1];
      if IsFile(fs, p) then front + [Md5Line(md5, p, fs.nodes[p].content)] else front
  }

  /** The text of deb/DEBIAN/md5sums for the filesystem as it is (lines 179-184). */
  function Md5Sums(md5: string -> string, fs: Fs): string
  {
    Concat(Md5Lines(md5, fs, Glob(fs.order, UsrDir)))
  }

  /** Lines 174-177: the control file and the two maintainer scripts. */
  function WriteScripts(fs: Fs, control: string, package: string, version: string): Fs
  {
    var withControl := Write(fs, ControlPath, control);
    var withPostinst := Write(withControl, PostinstPath, Postinst(package, version));
    var withPrerm := Write(withPostinst, PrermPath, Prerm(package, version));
    Chmod(Chmod(withPrerm, PostinstPath), PrermPath)
  }

  /** Lines 151-185, once the control text is built. */
  function Structure(fs: Fs, t: Fields, control: string, bins: seq<string>, md5: string -> string): Fs
  {
    var staged := Staged(fs, bins);
    var scripted := WriteScripts(staged, control, Interpolate(t.package), Interpolate(t.version));
    Write(scripted, Md5sumsPath, Md5Sums(md5, scripted))
  }

  /** The outcome of `setup_control_file` and the filesystem after the task. */
  datatype Outcome = Outcome(setup: Setup, fs: Fs)

  /**
   * `deb:create_structure`: nothing happens unless `setup_control_file`
   * succeeds. A crash in it leaves the filesystem as it was, since the
   * exception is raised before the first directory is made.
   */
  function CreateStructure(fs: Fs, t: Fields, global: Option<string>, bins: seq<string>,
                           md5: string -> string): Outcome
  {
    var s := SetupControl(t, global);
    Outcome(s, if s.Built? then Structure(fs, t, s.control, bins, md5) else fs)
  }

  /** `deb:clean`. */
  function Clean(fs: Fs): Fs
  {
    if DebDir in fs.nodes then RemoveTree(fs, DebDir) else fs
  }

  /** The message of the exception of line 198. */
  const DpkgDebMissingMessage := "'dpkg-deb' program not found. Can't create deb package."

  datatype BuildResult =
    | DpkgDebMissing                        // line 198 raises; nothing was touched
    | SetupCrashed                          // create_structure raised; nothing was touched
    | Ran(fs: Fs, command: Option<string>)  // the filesystem after, and the dpkg-deb call if any

  /** The dpkg-deb command line of line 195 for these fields. */
  function BuildCommand(t: Fields): string
  {
    DpkgDebCommand(DebFileName(t.package, t.version, t.architecture))
  }

  /** `deb:build` (lines 190-200). */
  function Build(fs: Fs, t: Fields, global: Option<string>, bins: seq<string>, md5: string -> string): BuildResult
  {
    if DpkgDebPath !in fs.nodes then DpkgDebMissing
    else if DebDir in fs.nodes then Ran(fs, Some(BuildCommand(t)))
    else
      var o := CreateStructure(fs, t, global, bins, md5);
      if o.setup.Crashed? then SetupCrashed
      else Ran(o.fs, if DebDir in o.fs.nodes then Some(BuildCommand(t)) else None)
  }

  /** Where the staging paths lie relative to each other. */
  lemma PathFacts(bin: string)
    ensures Under(StagedBin(bin), UsrDir) && Under(BinDir, UsrDir) && Under(UsrDir, UsrDir)
    ensures !Under(SystemBin(bin), DebDir)
    ensures !Under(StagedBin(bin), DebianDir)
    ensures StagedBin(bin) != UsrDir && StagedBin(bin) != BinDir
    ensures StagedBin(bin) != DebDir && StagedBin(bin) != DebianDir
  {
    assert StagedBin(bin)[4] == 'u';
    assert SystemBin(bin)[0] == '/';
    assert |StagedBin(bin)| >= 12;
  }

  lemma StagedBinInjective(a: string, b: string)
    ensures StagedBin(a) == StagedBin(b) <==> a == b
  {
    var n := |"deb/usr/bin/"|;
    assert StagedBin(a)[n..] == a && StagedBin(b)[n..] == b;
  }

  /** The staging paths all lie in deb/, the DEBIAN scripts outside deb/usr/. */
  lemma InsideFacts(q: Path)
    ensures Under(q, UsrDir) ==> Under(q, DebDir)
    ensures Under(q, DebianDir) ==> Under(q, DebDir) && !Under(q, UsrDir)
  {
    if Under(q, UsrDir) && q != UsrDir {
      assert q[..4] == UsrDir[..4];
    }
    if Under(q, DebianDir) {
      assert q[..4] == DebianDir[..4];
      assert q[4] == 'D';
    }
  }

  lemma ScriptPathFacts()
    ensures Under(ControlPath, DebianDir) && Under(PostinstPath, DebianDir)
    ensures Under(PrermPath, DebianDir) && Under(Md5sumsPath, DebianDir) && Under(DebianDir, DebDir)
    ensures ControlPath != PostinstPath && ControlPath != PrermPath && PostinstPath != PrermPath
    ensures Md5sumsPath != ControlPath && Md5sumsPath != PostinstPath && Md5sumsPath != PrermPath
  {
    assert ControlPath[11] == 'c' && PostinstPath[11] == 'p' && PrermPath[11] == 'p' && Md5sumsPath[11] == 'm';
    assert |PostinstPath| != |PrermPath|;
  }

  lemma GrewInsideWiden(a: Fs, b: Fs, inner: Path, outer: Path)
    requires GrewInside(a, b, inner)
    requires forall q :: Under(q, inner) ==> Under(q, outer)
    ensures GrewInside(a, b, outer)
  {
  }

  lemma UsrInsideDeb(a: Fs, b: Fs)
    requires GrewInside(a, b, UsrDir)
    ensures GrewInside(a, b, DebDir)
  {
    forall q ensures Under(q, UsrDir) ==> Under(q, DebDir) { InsideFacts(q); }
    GrewInsideWiden(a, b, UsrDir, DebDir);
  }

  lemma DebianInsideDeb(a: Fs, b: Fs)
    requires GrewInside(a, b, DebianDir)
    ensures GrewInside(a, b, DebDir)
  {
    forall q ensures Under(q, DebianDir) ==> Under(q, DebDir) { InsideFacts(q); }
    GrewInsideWiden(a, b, DebianDir, DebDir);
  }

  /**
   * One pass of the wrapper loop: skipped when the program is installed,
   * otherwise it leaves an executable wrapper at deb/usr/bin/<bin>, and it
   * touches nothing outside deb/usr.
   */
  lemma StageWrapperEffect(fs: Fs, bin: string)
    ensures Valid(fs) ==> Valid(StageWrapper(fs, bin))
    ensures GrewInside(fs, StageWrapper(fs, bin), UsrDir)
    ensures fs.nodes.Keys <= StageWrapper(fs, bin).nodes.Keys
    ensures SystemBin(bin) in fs.nodes ==> StageWrapper(fs, bin) == fs
    ensures SystemBin(bin) !in fs.nodes ==>
      StagedBin(bin) in StageWrapper(fs, bin).nodes &&
      StageWrapper(fs, bin).nodes[StagedBin(bin)] == File(Wrapper(bin), true)
    ensures SystemBin(bin) !in fs.nodes ==>
      UsrDir in StageWrapper(fs, bin).nodes && BinDir in StageWrapper(fs, bin).nodes
    ensures forall q :: q != UsrDir && q != BinDir && q != StagedBin(bin) ==>
      (q in StageWrapper(fs, bin).nodes <==> q in fs.nodes) &&
      (q in fs.nodes ==> StageWrapper(fs, bin).nodes[q] == fs.nodes[q])
  {
    if SystemBin(bin) !in fs.nodes {
      PathFacts(bin);
      var p := StagedBin(bin);
      var a := Mkdir(fs, UsrDir);
      var b := Mkdir(a, BinDir);
      var c := Write(b, p, Wrapper(bin));
      MkdirEffect(fs, UsrDir);
      MkdirEffect(a, BinDir);
      WriteEffect(b, p, Wrapper(bin));
      ChmodEffect(c, p);
      MkdirInside(fs, UsrDir, UsrDir);
      MkdirInside(a, BinDir, UsrDir);
      WriteInside(b, p, Wrapper(bin), UsrDir);
      ChmodInside(c, p, UsrDir);
      GrewInsideTrans(fs, a, b, UsrDir);
      GrewInsideTrans(fs, b, c, UsrDir);
      GrewInsideTrans(fs, c, Chmod(c, p), UsrDir);
    } else {
      GrewInsideRefl(fs, UsrDir);
    }
  }

  /** q is where the wrapper loop puts the wrapper of a listed binary that is not installed. */
  ghost predicate WrapperTarget(fs: Fs, bins: seq<string>, q: Path)
  {
    exists b :: b in bins && SystemBin(b) !in fs.nodes && q == StagedBin(b)
  }

  /**
   * The whole wrapper loop: exactly the listed binaries that are not
   * installed get an executable wrapper; nothing outside deb/usr changes.
   */
  lemma {:induction false} StageWrappersEffect(fs: Fs, bins: seq<string>)
    ensures Valid(fs) ==> Valid(StageWrappers(fs, bins))
    ensures GrewInside(fs, StageWrappers(fs, bins), UsrDir)
    ensures fs.nodes.Keys <= StageWrappers(fs, bins).nodes.Keys
    ensures forall b :: b in bins && SystemBin(b) !in fs.nodes ==>
      StagedBin(b) in StageWrappers(fs, bins).nodes &&
      StageWrappers(fs, bins).nodes[StagedBin(b)] == File(Wrapper(b), true)
    ensures forall b :: StagedBin(b) !in fs.nodes && StagedBin(b) in StageWrappers(fs, bins).nodes ==>
      b in bins && SystemBin(b) !in fs.nodes
    ensures forall q :: q != UsrDir && q != BinDir && !WrapperTarget(fs, bins, q) ==>
      Kept(fs, StageWrappers(fs, bins), q)
  {
    if bins == [] {
      GrewInsideRefl(fs, UsrDir);
    } else {
      var front := bins[..|bins| - 1];
      var last := bins[|bins| - 1];
      StageWrappersEffect(fs, front);
      var r := StageWrappers(fs, front);
      StageWrapperEffect(r, last);
      var r2 := StageWrapper(r, last);
      assert r2 == StageWrappers(fs, bins);
      GrewInsideTrans(fs, r, r2, UsrDir);
      PathFacts(last);
      assert SystemBin(last) in r.nodes <==> SystemBin(last) in fs.nodes by {
        assert !Under(SystemBin(last), UsrDir) by { InsideFacts(SystemBin(last)); }
      }
      forall b | b in bins && SystemBin(b) !in fs.nodes
        ensures StagedBin(b) in r2.nodes && r2.nodes[StagedBin(b)] == File(Wrapper(b), true)
      {
        if b != last {
          assert b in front;
          PathFacts(b);
          StagedBinInjective(b, last);
        }
      }
      forall b | StagedBin(b) !in fs.nodes && StagedBin(b) in r2.nodes
        ensures b in bins && SystemBin(b) !in fs.nodes
      {
        PathFacts(b);
        StagedBinInjective(b, last);
        if StagedBin(b) in r.nodes {
          assert b in front;
        } else {
          assert b == last;
        }
      }
      forall q | q != UsrDir && q != BinDir && !WrapperTarget(fs, bins, q)
        ensures Kept(fs, r2, q)
      {
        assert !WrapperTarget(fs, front, q) by {
          forall b | b in front ensures b in bins { }
        }
        if SystemBin(last) !in r.nodes {
          assert last in bins;
          assert q != StagedBin(last);
        }
      }
    }
  }

  /**
   * Lines 174-177 leave the control text in deb/DEBIAN/control and the two
   * scripts, executable, beside it; nothing outside deb/DEBIAN changes.
   */
  lemma WriteScriptsEffect(fs: Fs, control: string, package: string, version: string)
    ensures Valid(fs) ==> Valid(WriteScripts(fs, control, package, version))
    ensures GrewInside(fs, WriteScripts(fs, control, package, version), DebianDir)
    ensures fs.nodes.Keys <= WriteScripts(fs, control, package, version).nodes.Keys
    ensures IsFile(WriteScripts(fs, control, package, version), ControlPath)
    ensures WriteScripts(fs, control, package, version).nodes[ControlPath].content == control
    ensures WriteScripts(fs, control, package, version).nodes[ControlPath].executable <==>
      IsFile(fs, ControlPath) && fs.nodes[ControlPath].executable
    ensures WriteScripts(fs, control, package, version).nodes[PostinstPath] == File(Postinst(package, version), true)
    ensures WriteScripts(fs, control, package, version).nodes[PrermPath] == File(Prerm(package, version), true)
  {
    ScriptPathFacts();
    var a := Write(fs, ControlPath, control);
    var b := Write(a, PostinstPath, Postinst(package, version));
    var c := Write(b, PrermPath, Prerm(package, version));
    var d := Chmod(c, PostinstPath);
    WriteEffect(fs, ControlPath, control);
    WriteEffect(a, PostinstPath, Postinst(package, version));
    WriteEffect(b, PrermPath, Prerm(package, version));
    ChmodEffect(c, PostinstPath);
    ChmodEffect(d, PrermPath);
    WriteInside(fs, ControlPath, control, DebianDir);
    WriteInside(a, PostinstPath, Postinst(package, version), DebianDir);
    WriteInside(b, PrermPath, Prerm(package, version), DebianDir);
    ChmodInside(c, PostinstPath, DebianDir);
    ChmodInside(d, PrermPath, DebianDir);
    GrewInsideTrans(fs, a, b, DebianDir);
    GrewInsideTrans(fs, b, c, DebianDir);
    GrewInsideTrans(fs, c, d, DebianDir);
    GrewInsideTrans(fs, d, Chmod(d, PrermPath), DebianDir);
  }

  /** Lines 174-177 change the three DEBIAN files and no other path. */
  lemma WriteScriptsFrame(fs: Fs, control: string, package: string, version: string)
    ensures forall q :: q !in {ControlPath, PostinstPath, PrermPath} ==>
      Kept(fs, WriteScripts(fs, control, package, version), q)
  {
    var a := Write(fs, ControlPath, control);
    var b := Write(a, PostinstPath, Postinst(package, version));
    var c := Write(b, PrermPath, Prerm(package, version));
    var d := Chmod(c, PostinstPath);
    WriteEffect(fs, ControlPath, control);
    WriteEffect(a, PostinstPath, Postinst(package, version));
    WriteEffect(b, PrermPath, Prerm(package, version));
    ChmodEffect(c, PostinstPath);
    ChmodEffect(d, PrermPath);
  }

  lemma {:induction false} FilesAmongDistinct(fs: Fs, paths: seq<Path>)
    requires Distinct(paths)
    ensures Distinct(FilesAmong(fs, paths))
  {
    if paths != [] {
      var front := paths[..|paths| - 1];
      assert Distinct(front) by {
        forall i, j | 0 <= i < j < |front| ensures front[i] != front[j] {
          assert front[i] == paths[i] && front[j] == paths[j];
        }
      }
      FilesAmongDistinct(fs, front);
      var p := paths[|paths| - 1];
      assert p !in front by {
        forall k | 0 <= k < |front| ensures front[k] != p {
          assert front[k] == paths[k];
        }
      }
    }
  }

  /** Md5Lines holds one line per file among the paths, in their order. */
  lemma {:induction false} Md5LinesEntries(md5: string -> string, fs: Fs, paths: seq<Path>)
    ensures |Md5Lines(md5, fs, paths)| == |FilesAmong(fs, paths)|
    ensures forall k :: 0 <= k < |FilesAmong(fs, paths)| ==>
      IsFile(fs, FilesAmong(fs, paths)[k]) &&
      Md5Lines(md5, fs, paths)[k] ==
        Md5Line(md5, FilesAmong(fs, paths)[k], fs.nodes[FilesAmong(fs, paths)[k]].content)
  {
    if paths != [] {
      var front := paths[..|paths| - 1];
      Md5LinesEntries(md5, fs, front);
      var f := FilesAmong(fs, paths);
      forall k | 0 <= k < |f| ensures IsFile(fs, f[k]) {
        assert f[k] in f;
      }
    }
  }

  /**
   * The md5sums text has one line per file below deb/usr (hidden paths
   * aside), each listed once, in creation order, and no line for a directory.
   */
  lemma Md5SumsCover(md5: string -> string, fs: Fs)
    requires Valid(fs)
    ensures var listed := FilesAmong(fs, Glob(fs.order, UsrDir));
      && Distinct(listed)
      && (forall p :: p in listed <==> IsFile(fs, p) && Listed(p, UsrDir))
      && Md5Sums(md5, fs) == Concat(Md5Lines(md5, fs, Glob(fs.order, UsrDir)))
      && |Md5Lines(md5, fs, Glob(fs.order, UsrDir))| == |listed|
      && (forall k :: 0 <= k < |listed| ==>
            IsFile(fs, listed[k]) &&
            Md5Lines(md5, fs, Glob(fs.order, UsrDir))[k] == Md5Line(md5, listed[k], fs.nodes[listed[k]].content))
  {
    GlobDistinct(fs.order, UsrDir);
    FilesAmongDistinct(fs, Glob(fs.order, UsrDir));
    Md5LinesEntries(md5, fs, Glob(fs.order, UsrDir));
  }

  /** Lines computed from two filesystems that agree on the listed paths are the same. */
  lemma {:induction false} Md5LinesFrame(md5: string -> string, a: Fs, b: Fs, paths: seq<Path>)
    requires forall p :: p in paths ==> (IsFile(a, p) <==> IsFile(b, p))
    requires forall p :: p in paths && IsFile(a, p) && IsFile(b, p) ==> a.nodes[p] == b.nodes[p]
    ensures Md5Lines(md5, a, paths) == Md5Lines(md5, b, paths)
  {
    if paths != [] {
      var front := paths[..|paths| - 1];
      assert forall p :: p in front ==> p in paths;
      Md5LinesFrame(md5, a, b, front);
      assert paths[|paths| - 1] in paths;
    }
  }

  lemma {:induction false} GlobAppend(a: seq<Path>, b: seq<Path>, root: Path)
    ensures Glob(a + b, root) == Glob(a, root) + Glob(b, root)
  {
    if a == [] {
      assert a + b == b;
    } else {
      assert (a + b)[1..] == a[1..] + b;
      GlobAppend(a[1..], b, root);
    }
  }

  /** Writing md5sums, in deb/DEBIAN, does not change what it lists. */
  lemma Md5SumsFileIsOutside(md5: string -> string, fs: Fs, c: string)
    ensures Md5Sums(md5, Write(fs, Md5sumsPath, c)) == Md5Sums(md5, fs)
  {
    var r := Write(fs, Md5sumsPath, c);
    ScriptPathFacts();
    InsideFacts(Md5sumsPath);
    assert !Listed(Md5sumsPath, UsrDir);
    if Md5sumsPath !in fs.nodes {
      GlobAppend(fs.order, [Md5sumsPath], UsrDir);
      assert Glob([Md5sumsPath], UsrDir) == [];
    }
    assert Glob(r.order, UsrDir) == Glob(fs.order, UsrDir);
    Md5LinesFrame(md5, fs, r, Glob(fs.order, UsrDir));
  }

  /** Lines 151-172: deb/ and deb/DEBIAN made, then the wrappers placed. */
  function Staged(fs: Fs, bins: seq<string>): Fs
  {
    StageWrappers(Mkdir(Mkdir(fs, DebDir), DebianDir), bins)
  }

  lemma StagedEffect(fs: Fs, bins: seq<string>)
    ensures var staged := Staged(fs, bins);
      && (Valid(fs) ==> Valid(staged))
      && GrewInside(fs, staged, DebDir)
      && DebDir in staged.nodes && DebianDir in staged.nodes
      && (forall b :: b in bins && SystemBin(b) !in fs.nodes ==>
            StagedBin(b) in staged.nodes && staged.nodes[StagedBin(b)] == File(Wrapper(b), true))
      && (forall b :: StagedBin(b) !in fs.nodes && StagedBin(b) in staged.nodes ==>
            b in bins && SystemBin(b) !in fs.nodes)
  {
    var a := Mkdir(fs, DebDir);
    var base := Mkdir(a, DebianDir);
    var staged := StageWrappers(base, bins);
    MkdirEffect(fs, DebDir);
    MkdirEffect(a, DebianDir);
    MkdirInside(fs, DebDir, DebDir);
    MkdirInside(a, DebianDir, DebDir);
    GrewInsideTrans(fs, a, base, DebDir);
    StageWrappersEffect(base, bins);
    UsrInsideDeb(base, staged);
    GrewInsideTrans(fs, base, staged, DebDir);
    forall b ensures StagedBin(b) in base.nodes <==> StagedBin(b) in fs.nodes
      ensures SystemBin(b) in base.nodes <==> SystemBin(b) in fs.nodes
    {
      PathFacts(b);
    }
  }

  /** Making deb/ and deb/DEBIAN and placing the wrappers changes no other path. */
  lemma StagedFrame(fs: Fs, bins: seq<string>)
    ensures forall q :: q !in {DebDir, DebianDir, UsrDir, BinDir} && !WrapperTarget(fs, bins, q) ==>
      Kept(fs, Staged(fs, bins), q)
  {
    var a := Mkdir(fs, DebDir);
    var base := Mkdir(a, DebianDir);
    MkdirEffect(fs, DebDir);
    MkdirEffect(a, DebianDir);
    StageWrappersEffect(base, bins);
    ScriptPathFacts();
    forall q | q !in {DebDir, DebianDir, UsrDir, BinDir} && !WrapperTarget(fs, bins, q)
      ensures Kept(fs, Staged(fs, bins), q)
    {
      assert !WrapperTarget(base, bins, q) by {
        forall b ensures SystemBin(b) in base.nodes <==> SystemBin(b) in fs.nodes {
          PathFacts(b);
        }
      }
    }
  }

  /** Lines 151-177: the tree before md5sums is written. */
  function Scripted(fs: Fs, t: Fields, control: string, bins: seq<string>): Fs
  {
    WriteScripts(Staged(fs, bins), control, Interpolate(t.package), Interpolate(t.version))
  }

  lemma StructureIsScripted(fs: Fs, t: Fields, control: string, bins: seq<string>, md5: string -> string)
    ensures var scripted := Scripted(fs, t, control, bins);
      Structure(fs, t, control, bins, md5) == Write(scripted, Md5sumsPath, Md5Sums(md5, scripted))
  {
  }

  /** The wrappers survive the DEBIAN writes, which add only paths in deb/. */
  lemma ScriptedEffect(fs: Fs, t: Fields, control: string, bins: seq<string>)
    ensures var r := Scripted(fs, t, control, bins);
      && (Valid(fs) ==> Valid(r))
      && GrewInside(fs, r, DebDir)
      && DebDir in r.nodes && DebianDir in r.nodes
      && IsFile(r, ControlPath) && r.nodes[ControlPath].content == control
      && r.nodes[PostinstPath] == File(Postinst(Interpolate(t.package), Interpolate(t.version)), true)
      && r.nodes[PrermPath] == File(Prerm(Interpolate(t.package), Interpolate(t.version)), true)
      && (forall b :: b in bins && SystemBin(b) !in fs.nodes ==>
            StagedBin(b) in r.nodes && r.nodes[StagedBin(b)] == File(Wrapper(b), true))
      && (forall b :: StagedBin(b) !in fs.nodes && StagedBin(b) in r.nodes ==>
            b in bins && SystemBin(b) !in fs.nodes)
  {
    var staged := Staged(fs, bins);
    var r := Scripted(fs, t, control, bins);
    StagedEffect(fs, bins);
    WriteScriptsEffect(staged, control, Interpolate(t.package), Interpolate(t.version));
    DebianInsideDeb(staged, r);
    GrewInsideTrans(fs, staged, r, DebDir);
    ScriptPathFacts();
    InsideFacts(DebDir);
    InsideFacts(DebianDir);
    forall b | true
      ensures StagedBin(b) in r.nodes <==> StagedBin(b) in staged.nodes
      ensures StagedBin(b) in staged.nodes ==> r.nodes[StagedBin(b)] == staged.nodes[StagedBin(b)]
    {
      PathFacts(b);
    }
  }

  /**
   * `create_structure` once the control text is built: deb/ and deb/DEBIAN
   * exist, the three DEBIAN files hold the control text and the scripts,
   * md5sums lists the files below deb/usr of the finished tree, exactly
   * the listed binaries that are not installed get a wrapper, and only
   * paths in deb/ are added or changed.
   */
  lemma StructureEffect(fs: Fs, t: Fields, control: string, bins: seq<string>, md5: string -> string)
    ensures var r := Structure(fs, t, control, bins, md5);
      && (Valid(fs) ==> Valid(r))
      && GrewInside(fs, r, DebDir)
      && DebDir in r.nodes && DebianDir in r.nodes
      && IsFile(r, ControlPath) && r.nodes[ControlPath].content == control
      && r.nodes[PostinstPath] == File(Postinst(Interpolate(t.package), Interpolate(t.version)), true)
      && r.nodes[PrermPath] == File(Prerm(Interpolate(t.package), Interpolate(t.version)), true)
      && (r.nodes[ControlPath].executable <==> IsFile(fs, ControlPath) && fs.nodes[ControlPath].executable)
      && IsFile(r, Md5sumsPath) && r.nodes[Md5sumsPath].content == Md5Sums(md5, r)
      && (forall b :: b in bins && SystemBin(b) !in fs.nodes ==>
            StagedBin(b) in r.nodes && r.nodes[StagedBin(b)] == File(Wrapper(b), true))
      && (forall b :: StagedBin(b) !in fs.nodes ==>
            (StagedBin(b) in r.nodes <==> b in bins && SystemBin(b) !in fs.nodes))
  {
    var scripted := Scripted(fs, t, control, bins);
    var sums := Md5Sums(md5, scripted);
    var r := Write(scripted, Md5sumsPath, sums);
    StructureIsScripted(fs, t, control, bins, md5);
    ScriptedEffect(fs, t, control, bins);
    ScriptPathFacts();
    WriteEffect(scripted, Md5sumsPath, sums);
    WriteInside(scripted, Md5sumsPath, sums, DebDir);
    GrewInsideTrans(fs, scripted, r, DebDir);
    Md5SumsFileIsOutside(md5, scripted, sums);
    var staged := Staged(fs, bins);
    WriteScriptsEffect(staged, control, Interpolate(t.package), Interpolate(t.version));
    StagedFrame(fs, bins);
    assert !WrapperTarget(fs, bins, ControlPath) by {
      forall b ensures ControlPath != StagedBin(b) { PathFacts(b); }
    }
    assert ControlPath !in {DebDir, DebianDir, UsrDir, BinDir} by {
      assert |ControlPath| > |DebianDir| > |DebDir| && |ControlPath| > |BinDir| > |UsrDir|;
    }
    assert Kept(fs, staged, ControlPath);
    forall b | true
      ensures StagedBin(b) in r.nodes <==> StagedBin(b) in scripted.nodes
      ensures StagedBin(b) in scripted.nodes ==> r.nodes[StagedBin(b)] == scripted.nodes[StagedBin(b)]
    {
      PathFacts(b);
      InsideFacts(StagedBin(b));
    }
  }

  /**
   * `create_structure` changes no path but deb/, deb/DEBIAN, deb/usr,
   * deb/usr/bin, the four DEBIAN files and the wrappers it places: every
   * other path keeps its node, or stays absent.
   */
  lemma StructureFrame(fs: Fs, t: Fields, control: string, bins: seq<string>, md5: string -> string)
    ensures forall q ::
      && q !in {DebDir, DebianDir, UsrDir, BinDir, ControlPath, PostinstPath, PrermPath, Md5sumsPath}
      && !WrapperTarget(fs, bins, q)
      ==> Kept(fs, Structure(fs, t, control, bins, md5), q)
  {
    var staged := Staged(fs, bins);
    var scripted := Scripted(fs, t, control, bins);
    StructureIsScripted(fs, t, control, bins, md5);
    var r := Write(scripted, Md5sumsPath, Md5Sums(md5, scripted));
    StagedFrame(fs, bins);
    WriteScriptsFrame(staged, control, Interpolate(t.package), Interpolate(t.version));
    WriteEffect(scripted, Md5sumsPath, Md5Sums(md5, scripted));
    forall q |
      && q !in {DebDir, DebianDir, UsrDir, BinDir, ControlPath, PostinstPath, PrermPath, Md5sumsPath}
      && !WrapperTarget(fs, bins, q)
      ensures Kept(fs, r, q)
    {
      assert Kept(fs, staged, q);
      assert Kept(staged, scripted, q);
      assert Kept(scripted, r, q);
    }
  }

  /**
   * Every listed binary that is not installed already has its executable
   * wrapper, below existing deb/usr and deb/usr/bin directories.
   */
  ghost predicate WrappersInPlace(fs: Fs, bins: seq<string>)
  {
    forall b :: b in bins && SystemBin(b) !in fs.nodes ==>
      && UsrDir in fs.nodes && BinDir in fs.nodes
      && StagedBin(b) in fs.nodes && fs.nodes[StagedBin(b)] == File(Wrapper(b), true)
  }

  lemma {:induction false} StageWrappersInPlace(fs: Fs, bins: seq<string>)
    ensures WrappersInPlace(StageWrappers(fs, bins), bins)
  {
    if bins != [] {
      var front := bins[..|bins| - 1];
      var last := bins[|bins| - 1];
      var r := StageWrappers(fs, front);
      var r2 := StageWrapper(r, last);
      StageWrappersInPlace(fs, front);
      StageWrapperEffect(r, last);
      PathFacts(last);
      InsideFacts(StagedBin(last));
      forall b | b in bins && SystemBin(b) !in r2.nodes
        ensures UsrDir in r2.nodes && BinDir in r2.nodes
        ensures StagedBin(b) in r2.nodes && r2.nodes[StagedBin(b)] == File(Wrapper(b), true)
      {
        if b != last {
          assert b in front;
          PathFacts(b);
          InsideFacts(StagedBin(b));
          StagedBinInjective(b, last);
          assert SystemBin(b) !in r.nodes;
        }
      }
    }
  }

  /** The DEBIAN writes leave the wrappers in place. */
  lemma WrappersInPlaceKept(a: Fs, b: Fs, bins: seq<string>)
    requires WrappersInPlace(a, bins) && GrewInside(a, b, DebianDir)
    ensures WrappersInPlace(b, bins)
  {
    InsideFacts(UsrDir);
    InsideFacts(BinDir);
    forall x | x in bins && SystemBin(x) !in b.nodes
      ensures UsrDir in b.nodes && BinDir in b.nodes
      ensures StagedBin(x) in b.nodes && b.nodes[StagedBin(x)] == File(Wrapper(x), true)
    {
      PathFacts(x);
      InsideFacts(SystemBin(x));
    }
  }

  /** With the wrappers in place the wrapper loop changes nothing. */
  lemma {:induction false} StageWrappersStable(fs: Fs, bins: seq<string>)
    requires WrappersInPlace(fs, bins)
    ensures StageWrappers(fs, bins) == fs
  {
    if bins != [] {
      var front := bins[..|bins| - 1];
      var last := bins[|bins| - 1];
      assert forall b :: b in front ==> b in bins;
      StageWrappersStable(fs, front);
      if SystemBin(last) !in fs.nodes {
        WriteSame(fs, StagedBin(last), Wrapper(last));
        ChmodSame(fs, StagedBin(last));
      }
    }
  }

  /** Rewriting DEBIAN files that already hold these texts changes nothing. */
  lemma WriteScriptsStable(fs: Fs, control: string, package: string, version: string)
    requires IsFile(fs, ControlPath) && fs.nodes[ControlPath].content == control
    requires PostinstPath in fs.nodes && fs.nodes[PostinstPath] == File(Postinst(package, version), true)
    requires PrermPath in fs.nodes && fs.nodes[PrermPath] == File(Prerm(package, version), true)
    ensures WriteScripts(fs, control, package, version) == fs
  {
    WriteSame(fs, ControlPath, control);
    WriteSame(fs, PostinstPath, Postinst(package, version));
    WriteSame(fs, PrermPath, Prerm(package, version));
    ChmodSame(fs, PostinstPath);
    ChmodSame(fs, PrermPath);
  }

  lemma StructureInPlace(fs: Fs, t: Fields, control: string, bins: seq<string>, md5: string -> string)
    ensures WrappersInPlace(Structure(fs, t, control, bins, md5), bins)
  {
    var base := Mkdir(Mkdir(fs, DebDir), DebianDir);
    var staged := Staged(fs, bins);
    var scripted := Scripted(fs, t, control, bins);
    var r := Structure(fs, t, control, bins, md5);
    StageWrappersInPlace(base, bins);
    WriteScriptsEffect(staged, control, Interpolate(t.package), Interpolate(t.version));
    ScriptPathFacts();
    StructureIsScripted(fs, t, control, bins, md5);
    WriteInside(scripted, Md5sumsPath, Md5Sums(md5, scripted), DebianDir);
    GrewInsideTrans(staged, scripted, r, DebianDir);
    WrappersInPlaceKept(staged, r, bins);
  }

  /**
   * A second pass over a finished tree with the same metadata writes
   * exactly what is already there: no wrapper is added or duplicated and
   * every DEBIAN file keeps its text and mode.
   */
  lemma StructureIdempotent(fs: Fs, t: Fields, control: string, bins: seq<string>, md5: string -> string)
    ensures var r := Structure(fs, t, control, bins, md5);
      Structure(r, t, control, bins, md5) == r
  {
    var r := Structure(fs, t, control, bins, md5);
    StructureEffect(fs, t, control, bins, md5);
    StructureInPlace(fs, t, control, bins, md5);
    StageWrappersStable(r, bins);
    assert Staged(r, bins) == r;
    WriteScriptsStable(r, control, Interpolate(t.package), Interpolate(t.version));
    WriteSame(r, Md5sumsPath, Md5Sums(md5, r));
  }

  /** `deb:create_structure` run twice leaves the tree of the first run. */
  lemma CreateStructureIdempotent(fs: Fs, t: Fields, global: Option<string>, bins: seq<string>,
                                  md5: string -> string)
    ensures var once := CreateStructure(fs, t, global, bins, md5).fs;
      CreateStructure(once, t, global, bins, md5).fs == once
  {
    var s := SetupControl(t, global);
    if s.Built? {
      StructureIdempotent(fs, t, s.control, bins, md5);
    }
  }

  /** `create_structure` changes nothing unless `setup_control_file` succeeds. */
  lemma CreateStructureNeedsControl(fs: Fs, t: Fields, global: Option<string>, bins: seq<string>,
                                    md5: string -> string)
    ensures var o := CreateStructure(fs, t, global, bins, md5);
      && o.setup == SetupControl(t, global)
      && (!o.setup.Built? ==> o.fs == fs)
      && (o.setup.Built? ==> o.fs == Structure(fs, t, o.setup.control, bins, md5))
      && (o.setup.Built? ==> IsFile(o.fs, ControlPath) && o.fs.nodes[ControlPath].content == o.setup.control)
  {
    if SetupControl(t, global).Built? {
      StructureEffect(fs, t, SetupControl(t, global).control, bins, md5);
    }
  }

  /**
   * `deb:clean` removes deb/ with everything below it and keeps the rest as
   * it was; when deb/ does not exist it does nothing.
   */
  lemma CleanEffect(fs: Fs)
    ensures Valid(fs) ==> Valid(Clean(fs))
    ensures DebDir !in fs.nodes ==> Clean(fs) == fs
    ensures DebDir in fs.nodes ==>
      forall q :: q in Clean(fs).nodes <==> q in fs.nodes && !Under(q, DebDir)
    ensures forall q :: q in Clean(fs).nodes ==> q in fs.nodes && Clean(fs).nodes[q] == fs.nodes[q]
  {
    if Valid(fs) {
      RemoveTreeValid(fs, DebDir);
    }
  }

  /**
   * Cleaning after `create_structure` gives back the filesystem there was
   * before it, when nothing lay in deb/ then.
   */
  lemma CleanUndoesCreateStructure(fs: Fs, t: Fields, global: Option<string>, bins: seq<string>,
                                   md5: string -> string)
    requires Valid(fs)
    requires forall p :: p in fs.nodes ==> !Under(p, DebDir)
    ensures Clean(CreateStructure(fs, t, global, bins, md5).fs) == fs
  {
    var s := SetupControl(t, global);
    if s.Built? {
      StructureEffect(fs, t, s.control, bins, md5);
      RemoveUndoesGrowth(fs, Structure(fs, t, s.control, bins, md5), DebDir);
    } else {
      assert DebDir !in fs.nodes;
    }
  }

  /**
   * `deb:build`: without dpkg-deb it raises before touching anything; with
   * deb/ present it packs it as it is; otherwise it runs `create_structure`
   * and calls dpkg-deb exactly when that built deb/.
   */
  lemma BuildOutcomes(fs: Fs, t: Fields, global: Option<string>, bins: seq<string>, md5: string -> string)
    ensures Build(fs, t, global, bins, md5) == DpkgDebMissing <==> DpkgDebPath !in fs.nodes
    ensures DpkgDebPath in fs.nodes && DebDir in fs.nodes ==>
      Build(fs, t, global, bins, md5) == Ran(fs, Some(BuildCommand(t)))
    ensures DpkgDebPath in fs.nodes && DebDir !in fs.nodes ==>
      Build(fs, t, global, bins, md5) ==
        match SetupControl(t, global)
        case Rejected(_) => Ran(fs, None)
        case Crashed(_) => SetupCrashed
        case Built(c) => Ran(Structure(fs, t, c, bins, md5), Some(BuildCommand(t)))
  {
    if DpkgDebPath in fs.nodes && DebDir !in fs.nodes && SetupControl(t, global).Built? {
      StructureEffect(fs, t, SetupControl(t, global).control, bins, md5);
    }
  }

  /**
   * The command packs deb/ into "<package>_<version>_<architecture>.deb",
   * the three read back from it when package and version hold no underscore.
   */
  lemma BuildCommandNamesArchive(t: Fields)
    requires '_' !in Interpolate(t.package) && '_' !in Interpolate(t.version)
    ensures BuildCommand(t) == "dpkg-deb -b deb/ '" + DebFileName(t.package, t.version, t.architecture) + "'"
    ensures ParseDebFileName(DebFileName(t.package, t.version, t.architecture)) ==
      Some((Interpolate(t.package), Interpolate(t.version), Interpolate(t.architecture)))
  {
    DebFileNameRoundTrip(t.package, t.version, t.architecture);
  }
}
