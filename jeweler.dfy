/**
 * `Jeweler::DebTasks` (lines 63-213): the object that holds the control
 * fields, and the bodies of its rake tasks run against the filesystem.
 */
module Jeweler {
  import opened Wrappers
  import opened Text
  import opened Depends
  import opened Control
  import opened Metadata
  import opened Templates
  import opened Files
  import Disk
  import Staging
  import Wrap

  /** The fields after the configuration block, before the Depends defaulting. */
  function Configured(g: Gemspec, configure: Fields -> Fields): Fields
  {
    configure(InitialFields(g))
  }

  class DebTasks {
    var fields: Fields
    /** `@bin_files`: the base names of the entries of the gem's bin directory. */
    var binFiles: seq<string>
    /** `@control`; nil until `setup_control_file` gets past the check. */
    var control: Option<string>

    /**
     * `initialize`: the gemspec values, then the configuration block, then
     * the Depends entries for Ruby and RubyGems when missing.
     */
    constructor (g: Gemspec, configure: Fields -> Fields, bins: seq<string>)
      ensures fields == Configured(g, configure).(depends := Some(DefaultDepends(Configured(g, configure).depends)))
      ensures HasToken(fields.depends.value, "ruby") && HasToken(fields.depends.value, "rubygems")
      ensures binFiles == bins && control == None
    {
      var t := configure(InitialFields(g));
      var depends := t.depends;
      if depends.None? {
        depends := Some(DefaultList);
      } else {
        if !HasToken(depends.value, "rubygems") {
          depends := Some(RubygemsPrefix + depends.value);
        }
        if !HasToken(depends.value, "ruby") {
          depends := Some(RubyPrefix + depends.value);
        }
      }
      fields := t.(depends := depends);
      binFiles := bins;
      control := None;
      DefaultedHasBoth(t.depends);
    }

    /** Lines 110-114: each nil mandatory field overwrites the error in turn. */
    method MissingField() returns (error: Option<FieldName>)
      ensures error == LastMissing(fields, Mandatory)
      ensures error.None? <==> forall k :: 0 <= k < |Mandatory| ==> Value(fields, Mandatory[k]).Some?
    {
      error := None;
      if fields.package.None? { error := Some(Package); }
      if fields.version.None? { error := Some(Version); }
      if fields.architecture.None? { error := Some(Architecture); }
      if fields.maintainer.None? { error := Some(Maintainer); }
      if fields.description.None? { error := Some(Description); }
      MandatoryCheck(fields);
      LastMissingIsLast(fields, Mandatory);
    }

    /** Lines 120-123: the line of every non-nil field, appended in field order. */
    method FieldLines() returns (buffer: string)
      ensures buffer == Lines(fields, LineFields)
    {
      buffer := "";
      var i := 0;
      while i < |LineFields|
        invariant 0 <= i <= |LineFields|
        invariant buffer == Lines(fields, LineFields[..i])
      {
        var f := LineFields[i];
        LinesSnoc(fields, LineFields[..i], f);
        assert LineFields[..i + 1] == LineFields[..i] + [f];
        if Value(fields, f).Some? {
          buffer := buffer + (Label(f) + ": " + Value(fields, f).value + "\n");
        }
        i := i + 1;
      }
      assert LineFields[..i] == LineFields;
    }

    /**
     * `setup_control_file`: each nil mandatory field overwrites the error in
     * turn; on success the lines are appended to the buffer field by field,
     * and the wrapped global description after them. `message` is what is
     * printed.
     */
    method SetupControlFile(global: Option<string>) returns (outcome: Setup, message: Option<string>)
      modifies this`control
      ensures outcome == SetupControl(fields, global)
      ensures outcome.Rejected? ==> control == old(control) && message == Some(ErrorLine(outcome.missing))
      ensures outcome.Crashed? ==> control == Some(outcome.partial) && message == None
      ensures outcome.Built? ==> control == Some(outcome.control) && message == None
    {
      var error := MissingField();
      if error.Some? {
        outcome := Rejected(error.value);
        message := Some(ErrorLine(error.value));
        return;
      }
      message := None;
      var buffer := FieldLines();
      control := Some(buffer);
      if fields.descriptionExtended.Some? {
        if global.None? {
          outcome := Crashed(buffer);
          return;
        }
        buffer := buffer + Wrap.ExtendedBlock(global.value);
        control := Some(buffer);
      }
      outcome := Built(buffer);
    }

    /** `deb:control`: the control text is printed when it could be built. */
    method ControlTask(global: Option<string>) returns (printed: Option<string>)
      modifies this`control
      ensures printed.Some? <==> SetupControl(fields, global).Built?
      ensures printed.Some? ==> printed.value == SetupControl(fields, global).control
      ensures control == ControlAfter(SetupControl(fields, global), old(control))
    {
      var outcome, message := SetupControlFile(global);
      printed := if outcome.Built? then control else None;
    }

    /** The loop of lines 154-172. */
    method StageWrappers(disk: Disk.FileSystem)
      modifies disk
      ensures disk.State() == Staging.StageWrappers(old(disk.State()), binFiles)
    {
      ghost var base := disk.State();
      var i := 0;
      while i < |binFiles|
        invariant 0 <= i <= |binFiles|
        invariant disk.State() == Staging.StageWrappers(base, binFiles[..i])
      {
        var bin := binFiles[i];
        ghost var before := disk.State();
        assert binFiles[..i + 1][..i] == binFiles[..i];
        if !disk.Exists(Staging.SystemBin(bin)) {
          disk.Mkdir(Staging.UsrDir);
          disk.Mkdir(Staging.BinDir);
          disk.Write(Staging.StagedBin(bin), Wrapper(bin));
          disk.Chmod(Staging.StagedBin(bin));
        }
        assert disk.State() == Staging.StageWrapper(before, bin);
        i := i + 1;
      }
      assert binFiles[..i] == binFiles;
    }

    /** Lines 174-177. */
    method WriteScripts(disk: Disk.FileSystem, text: string, package: string, version: string)
      modifies disk
      ensures disk.State() == Staging.WriteScripts(old(disk.State()), text, package, version)
    {
      var postinst := Postinst(package, version);
      var prerm := Prerm(package, version);
      disk.Write(Staging.ControlPath, text);
      disk.Write(Staging.PostinstPath, postinst);
      disk.Write(Staging.PrermPath, prerm);
      disk.Chmod(Staging.PostinstPath);
      disk.Chmod(Staging.PrermPath);
    }

    /** The loop of lines 179-184: one `md5sum` line per file the glob lists. */
    method Md5Sums(disk: Disk.FileSystem, md5: string -> string) returns (md5sums: string)
      ensures md5sums == Staging.Md5Sums(md5, disk.State())
    {
      md5sums := "";
      var paths := Glob(disk.order, Staging.UsrDir);
      var j := 0;
      while j < |paths|
        invariant 0 <= j <= |paths|
        invariant md5sums == Concat(Staging.Md5Lines(md5, disk.State(), paths[..j]))
      {
        var p := paths[j];
        assert paths[..j + 1][..j] == paths[..j];
        if p in disk.nodes && disk.nodes[p].File? {
          ConcatSnoc(Staging.Md5Lines(md5, disk.State(), paths[..j]), Staging.Md5Line(md5, p, disk.nodes[p].content));
          md5sums := md5sums + Staging.Md5Line(md5, p, disk.nodes[p].content);
        }
        j := j + 1;
      }
      assert paths[..j] == paths;
    }

    /** `deb:create_structure` against the filesystem object. */
    method CreateStructure(disk: Disk.FileSystem, global: Option<string>, md5: string -> string)
      returns (outcome: Setup)
      modifies this`control, disk
      ensures outcome == SetupControl(fields, global)
      ensures control == ControlAfter(outcome, old(control))
      ensures disk.State() == Staging.CreateStructure(old(disk.State()), fields, global, binFiles, md5).fs
    {
      var message;
      outcome, message := SetupControlFile(global);
      if !outcome.Built? {
        return;
      }
      var package, version := Interpolate(fields.package), Interpolate(fields.version);
      disk.Mkdir(Staging.DebDir);
      disk.Mkdir(Staging.DebianDir);
      StageWrappers(disk);
      WriteScripts(disk, outcome.control, package, version);
      var md5sums := Md5Sums(disk, md5);
      disk.Write(Staging.Md5sumsPath, md5sums);
    }

    /** `deb:build` against the filesystem object. */
    method Build(disk: Disk.FileSystem, global: Option<string>, md5: string -> string)
      returns (result: Staging.BuildResult)
      modifies this`control, disk
      ensures result == Staging.Build(old(disk.State()), fields, global, binFiles, md5)
      ensures result.Ran? ==> disk.State() == result.fs
      ensures !result.Ran? ==> disk.State() == old(disk.State())
      ensures var before := old(disk.State());
        if Staging.DpkgDebPath in before.nodes && Staging.DebDir !in before.nodes
        then control == ControlAfter(SetupControl(fields, global), old(control))
        else control == old(control)
    {
      if !disk.Exists(Staging.DpkgDebPath) {
        return Staging.DpkgDebMissing;
      }
      if !disk.Exists(Staging.DebDir) {
        var outcome := CreateStructure(disk, global, md5);
        if outcome.Crashed? {
          return Staging.SetupCrashed;
        }
      }
      var command := None;
      if disk.Exists(Staging.DebDir) {
        command := Some(DpkgDebCommand(DebFileName(fields.package, fields.version, fields.architecture)));
      }
      result := Staging.Ran(disk.State(), command);
    }

    /** `deb:clean` against the filesystem object. */
    method Clean(disk: Disk.FileSystem)
      modifies disk
      ensures disk.State() == Staging.Clean(old(disk.State()))
    {
      if disk.Exists(Staging.DebDir) {
        disk.RemoveTree(Staging.DebDir);
      }
    }
  }
}
