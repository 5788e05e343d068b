/**
 * The fixed texts `create_structure` and `build` produce: the maintainer
 * scripts (lines 145-149), the wrapper script for a gem binary (lines
 * 156-166), the archive name and the dpkg-deb command line (line 195).
 */
module Templates {
  import opened Wrappers
  import opened Text

  const Shebang := "#!/usr/bin/ruby\n"

  const InstallHead := Shebang + "puts `gem install "
  const InstallTail := " --no-rdoc --no-ri`"
  const RemoveHead := Shebang + "puts `gem uninstall "
  const RemoveTail := " -ax`"
  const VersionFlag := " -v "

  /** The DEBIAN/postinst script: install the gem at that version. */
  function Postinst(package: string, version: string): string
  {
    InstallHead + package + VersionFlag + version + InstallTail
  }

  /** The DEBIAN/prerm script: uninstall every copy of the gem at that version. */
  function Prerm(package: string, version: string): string
  {
    RemoveHead + package + VersionFlag + version + RemoveTail
  }

  /**
   * The wrapper for a binary, the heredoc of lines 157-165: `#{path}` and
   * `#{bin_path}` are escaped in the source, so they stay literally in the
   * script, while the binary's name is interpolated.
   */
  const WrapperHead :=
    "#!/usr/bin/ruby\n" +
    "require 'rubygems'\n" +
    "Gem.path.each do |path|\n" +
    "  bin_path = \"#{path}/bin/"
  const WrapperTail :=
    "\"\n" +
    "  if File.exists?(bin_path)\n" +
    "    `#{bin_path}`\n" +
    "    break\n" +
    "  end\n" +
    "end\n"

  function Wrapper(bin: string): string
  {
    WrapperHead + bin + WrapperTail
  }

  /** What lies between a known head and a known tail. */
  function Between(s: string, head: string, tail: string): Option<string>
  {
    if |head| + |tail| <= |s| && s[..|head|] == head && s[|s| - |tail|..] == tail
    then Some(s[|head|..|s| - |tail|])
    else None
  }

  lemma BetweenOf(head: string, m: string, tail: string)
    ensures Between(head + m + tail, head, tail) == Some(m)
  {
    var s := head + m + tail;
    assert s[..|head|] == head;
    assert s[|s| - |tail|..] == tail;
    assert s[|head|..|s| - |tail|] == m;
  }

  /** The binary a wrapper script launches. */
  function WrappedBin(script: string): Option<string>
  {
    Between(script, WrapperHead, WrapperTail)
  }

  /** Each wrapper names its binary: reading it back gives the name, so distinct bins get distinct scripts. */
  lemma WrapperRoundTrip(bin: string)
    ensures WrappedBin(Wrapper(bin)) == Some(bin)
  {
    BetweenOf(WrapperHead, bin, WrapperTail);
  }

  lemma WrapperInjective(a: string, b: string)
    ensures Wrapper(a) == Wrapper(b) <==> a == b
  {
    WrapperRoundTrip(a);
    WrapperRoundTrip(b);
  }

  /**
   * Reads a "<package> -v <version>" argument string back, splitting at the
   * first space.
   */
  function GemArguments(args: string): Option<(string, string)>
  {
    var k := IndexOf(args, ' ');
    if k + |VersionFlag| <= |args| && args[k..k + |VersionFlag|] == VersionFlag
    then Some((args[..k], args[k + |VersionFlag|..]))
    else None
  }

  /** The package and version a maintainer script installs or removes. */
  function ScriptArguments(script: string, head: string, tail: string): Option<(string, string)>
  {
    match Between(script, head, tail)
    case None => None
    case Some(args) => GemArguments(args)
  }

  lemma GemArgumentsOf(package: string, version: string)
    requires ' ' !in package
    ensures GemArguments(package + VersionFlag + version) == Some((package, version))
  {
    var args := package + VersionFlag + version;
    IndexOfFirst(package, ' ', "-v " + version);
    assert args == package + [' '] + ("-v " + version);
    var k := |package|;
    assert args[k..k + |VersionFlag|] == VersionFlag;
    assert args[..k] == package;
    assert args[k + |VersionFlag|..] == version;
  }

  /**
   * Both maintainer scripts carry the package and the version they were made
   * from, for a package name without spaces (a gem name has none).
   */
  lemma ScriptsRoundTrip(package: string, version: string)
    requires ' ' !in package
    ensures ScriptArguments(Postinst(package, version), InstallHead, InstallTail) == Some((package, version))
    ensures ScriptArguments(Prerm(package, version), RemoveHead, RemoveTail) == Some((package, version))
  {
    GemArgumentsOf(package, version);
    assert Postinst(package, version) == InstallHead + (package + VersionFlag + version) + InstallTail;
    assert Prerm(package, version) == RemoveHead + (package + VersionFlag + version) + RemoveTail;
    BetweenOf(InstallHead, package + VersionFlag + version, InstallTail);
    BetweenOf(RemoveHead, package + VersionFlag + version, RemoveTail);
  }

  /**
   * The archive name of line 195, "<package>_<version>_<architecture>.deb";
   * a nil field interpolates as the empty string.
   */
  function DebFileName(package: Option<string>, version: Option<string>, architecture: Option<string>): string
  {
    Interpolate(package) + "_" + Interpolate(version) + "_" + Interpolate(architecture) + ".deb"
  }

  /** The command line of line 195. */
  function DpkgDebCommand(archive: string): string
  {
    "dpkg-deb -b deb/ '" + archive + "'"
  }

  /** Splits an archive name at its first two underscores and drops ".deb". */
  function ParseDebFileName(s: string): Option<(string, string, string)>
  {
    var i := IndexOf(s, '_');
    if i < |s| then
      var rest := s[i + 1..];
      var j := IndexOf(rest, '_');
      if j < |rest| then
        var last := rest[j + 1..];
        if |last| >= 4 && last[|last| - 4..] == ".deb" then
          Some((s[..i], rest[..j], last[..|last| - 4]))
        else None
      else None
    else None
  }

  /**
   * The archive name determines package, version and architecture when the
   * first two have no underscore; a nil field reads back as empty.
   */
  lemma DebSuffix(a: string)
    ensures var last := a + ".deb";
      |last| >= 4 && last[|last| - 4..] == ".deb" && last[..|last| - 4] == a
  {
    var last := a + ".deb";
    assert last[|last| - 4..] == ".deb";
    assert last[..|last| - 4] == a;
  }

  lemma DebFileNameShape(p: string, v: string, a: string)
    ensures p + "_" + v + "_" + a + ".deb" == p + ['_'] + (v + ['_'] + (a + ".deb"))
  {
    assert "_" == ['_'];
  }

  lemma ParseDebOf(p: string, v: string, a: string)
    requires '_' !in p && '_' !in v
    ensures ParseDebFileName(p + ['_'] + (v + ['_'] + (a + ".deb"))) == Some((p, v, a))
  {
    var rest := v + ['_'] + (a + ".deb");
    CutAtFirst(p, '_', rest);
    CutAtFirst(v, '_', a + ".deb");
    DebSuffix(a);
  }

  lemma DebFileNameRoundTrip(package: Option<string>, version: Option<string>, architecture: Option<string>)
    requires '_' !in Interpolate(package) && '_' !in Interpolate(version)
    ensures ParseDebFileName(DebFileName(package, version, architecture)) ==
      Some((Interpolate(package), Interpolate(version), Interpolate(architecture)))
  {
    var p, v, a := Interpolate(package), Interpolate(version), Interpolate(architecture);
    DebFileNameShape(p, v, a);
    ParseDebOf(p, v, a);
  }
}
