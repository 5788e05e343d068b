# Debian packaging tasks of Jeweler, modelled in Dafny

This project models `Jeweler::DebTasks` (`lib/jeweler/deb_tasks.rb`). This class defines
the rake tasks `deb:control`, `deb:create_structure`, `deb:build` and `deb:clean`. They turn
a gem's metadata into a Debian binary package staged under `./deb/`.

Modules:

- `Depends`: the default `Depends` entries. The two token regexes of lines 91 and 94 are a
  predicate `HasToken`, which treats Ruby's `^`/`$` as line anchors.
- `Metadata`: what `initialize` copies from the gemspec, including the maintainer string
  `author <email>`.
- `Control`: the thirteen control fields and their `Capitalize`d labels (`Installed_size`).
  It also holds the mandatory-field check of `setup_control_file`, which reports the
  **last** missing field in its chain of assignments, and the serialisation of the field
  lines.
- `Wrap`: the `gsub(/(.{1,79})( +|$\n?)|(.{1,79})/, "\\1\\3\n ")[0..-3]` wrap of the
  extended description. It is a scanner over the text that yields one segment per regex
  match or skipped character. Then come the substitution and the two-character trim.
- `Templates`: the `postinst`/`prerm` scripts, the heredoc wrapper script, the
  `dpkg-deb` command and the archive name `package_version_architecture.deb`.
- `Files` and `Disk`: an in-memory filesystem.
  - `Files` is the value: a creation order plus a map from paths to nodes.
  - `Disk.FileSystem` is the mutable object the tasks act on.
- `Staging`: what `create_structure`, `build` and `clean` do to that filesystem, as
  functions of the filesystem before. It also holds the lemmas about them.
- `Jeweler.DebTasks`: the class itself.
  - The constructor is `initialize`, with the user block as a function `configure`.
  - Its methods are the task bodies. They loop over the field list, the binaries and the
    globbed files as the source does, and each is proved equal to its `Staging` or
    `Control` function.

Behaviour of the code that the model keeps as written:

- `setup_control_file` tests the five mandatory fields in turn, and each failing test
  overwrites `error` (lines 110-114). So the reported field is the *last* missing one in
  the order package, version, architecture, maintainer, description
  (`Control.SetupRejection`).
- The extended description is guarded by `description_extended`, but the text that is
  wrapped is the global `$DESCRIPTION`. When that is nil, the task crashes after `@control`
  already holds the field lines (`Control.WrapReadsGlobalText`).
- Lines 91-96 only prepend an entry whose token is missing. A user value that already
  holds a token twice keeps both copies, so the model proves presence and idempotence, not
  that each token appears once.
- The `ruby` pattern of line 94 is tested after line 92 may have prepended the `rubygems`
  entry. Its `, ` can open a `ruby` token that the configured value alone lacked: `"  ruby"`
  gets only the `rubygems` entry (`Depends.IndentedRubyGetsOnlyGems`).
- `initialize` always sets `Depends`, so every control text built from an initialised
  object carries a `Depends` line.

## Model

| member | source | states |
|---|---|---|
| Depends.DefaultListHasBoth | lib/jeweler/deb_tasks.rb:88-89 | the default list holds a `ruby` and a `rubygems` token |
| Depends.DefaultedHasBoth | lib/jeweler/deb_tasks.rb:88-97 | after defaulting, whatever the user gave (nil or a string), both tokens are present |
| Depends.DefaultingIdempotent | lib/jeweler/deb_tasks.rb:88-97 | defaulting an already defaulted value leaves it unchanged |
| Depends.DefaultingPrepends | lib/jeweler/deb_tasks.rb:90-96 | the user's string is kept as a suffix and only missing entries are prepended, `ruby` in front of `rubygems`. The four cases: both tokens present, the string is kept; only `rubygems`, the `ruby` entry is added; only `ruby`, the `rubygems` entry is added; no `rubygems`, the `ruby` entry is added too iff the string with the `rubygems` entry in front still has no `ruby` token |
| Depends.RubygemsIsNotRuby | lib/jeweler/deb_tasks.rb:91-94 | an occurrence of the `rubygems` token is never an occurrence of the `ruby` token, as the `ruby *(,\|\(\|\[\|$)` tail requires |
| Depends.PrependedEntryIsToken | lib/jeweler/deb_tasks.rb:92-95 | prepending the default `ruby` or `rubygems` entry to any string makes that name a token of the result |
| Depends.IndentedRubyGetsOnlyGems | lib/jeweler/deb_tasks.rb:91-95 | `"  ruby"` holds neither token, yet the defaulting adds only the `rubygems` entry, because line 94 tests the string after line 92 has prepended it |
| Metadata.MaintainerShape | lib/jeweler/deb_tasks.rb:77-80 | the maintainer is nil iff there is no author; the author is a prefix; the email is appended iff it is not nil |
| Metadata.MaintainerRoundTrip | lib/jeweler/deb_tasks.rb:78-80 | splitting the maintainer at its last `<` gives back the author and the email, for an author without `<` and an email without `<` or `>` |
| Metadata.InitialValidation | lib/jeweler/deb_tasks.rb:72-83 | fields copied from a gemspec pass validation iff it has a name, a version, an author and a summary; otherwise the reported field is description without a summary, else maintainer without an author, else version, else package |
| Control.Without | lib/jeweler/deb_tasks.rb:121 | `@@control_fields - [x]` holds exactly the names other than `x` |
| Control.ControlFieldsSplit | lib/jeweler/deb_tasks.rb:67-69 | the field list is the twelve line fields followed by `description_extended` |
| Control.LineFieldsInOrder | lib/jeweler/deb_tasks.rb:121 | removing `description_extended` from the list leaves the twelve line fields in their order |
| Control.LastMissingIsLast | lib/jeweler/deb_tasks.rb:110-114 | no field is reported iff every listed field is set; a reported field is unset and every field after it is set |
| Control.MandatoryCheck | lib/jeweler/deb_tasks.rb:110-114 | the reported field is description, else maintainer, else architecture, else version, else package, the first unset one in that order |
| Control.SetupRejection | lib/jeweler/deb_tasks.rb:110-118 | setup is rejected iff one of the five mandatory fields is nil, and each combination of missing fields names the field the source reports |
| Control.LabelHasNoColon | lib/jeweler/deb_tasks.rb:122 | no capitalised field label contains `:` |
| Control.LinesSnoc | lib/jeweler/deb_tasks.rb:121-123 | the lines of a list extended by one field are the old lines followed by that field's line |
| Control.ParseLine | lib/jeweler/deb_tasks.rb:122 | a line `Key: value`, with no `:` in the key and no newline in the value, is read back as the pair (key, value) in front of the rest |
| Control.LinesRoundTrip | lib/jeweler/deb_tasks.rb:120-123 | when every set value is one line, reading the field lines back gives exactly the (label, value) pairs of the set fields, in list order, with nil fields skipped |
| Control.BuiltTextRoundTrip | lib/jeweler/deb_tasks.rb:119-127 | a control text built without an extended description, when every set value is one line, reads back as the pairs of the set line fields |
| Control.WrapReadsGlobalText | lib/jeweler/deb_tasks.rb:124-125 | the outcome does not depend on the value of `description_extended`, only on whether it is set; with a nil `$DESCRIPTION` the setup crashes holding the field lines |
| Control.MandatoryOnlyText | lib/jeweler/deb_tasks.rb:119-127 | metadata with only the mandatory fields (and perhaps `Depends`) yields the control text `Package`, `Version`, `Architecture`, `Depends`, `Maintainer`, `Description` lines, spelled out |
| Control.MandatoryOnlyLines | lib/jeweler/deb_tasks.rb:121-123 | with only those fields set, the line loop emits exactly their six lines in field order |
| Wrap.LineEnd | lib/jeweler/deb_tasks.rb:125 | the end of the current line for `$`: the first newline at or after the position, or the end of the text |
| Wrap.BreakLength | lib/jeweler/deb_tasks.rb:125 | the longest group of at most the given length that alternative 1 of the regex accepts |
| Wrap.SpaceRunEnd | lib/jeweler/deb_tasks.rb:125 | the end of the maximal run of spaces that `( +)` consumes |
| Wrap.MatchAt | lib/jeweler/deb_tasks.rb:125 | a match at a non-newline position consumes a non-empty slice of the text that is the group followed by the separator; the cut is greedy: no longer group could break at a space or line end, and a group taken by the third alternative is 79 characters with no break possible within them |
| Wrap.MatchWellCut | lib/jeweler/deb_tasks.rb:125 | a group holds 1 to 79 characters and no newline, and the consumed separator is spaces or at most one newline; a separator of spaces stops at the end of the text or before a non-space, as greedy ` +` does |
| Wrap.MatchTakesNewline | lib/jeweler/deb_tasks.rb:125 | a group that ends where its line ends, before a newline, has that newline as its consumed separator, as `$\n?` takes it |
| Wrap.ScanCovers | lib/jeweler/deb_tasks.rb:125 | the matches and the skipped characters together are exactly the text |
| Wrap.ScanWellCut | lib/jeweler/deb_tasks.rb:125 | every match of the scan is well cut |
| Wrap.ScanOfLine | lib/jeweler/deb_tasks.rb:125 | on newline-free text every piece is a match, and there is one exactly when the text is not empty |
| Wrap.SubstitutedJoins | lib/jeweler/deb_tasks.rb:125 | the substitution of all-match text is the groups joined by newline-space, followed by newline-space |
| Wrap.RejoinedIsOriginal | lib/jeweler/deb_tasks.rb:125 | the groups with their separators put back are the original text |
| Wrap.WrapOfLine | lib/jeweler/deb_tasks.rb:125 | for newline-free text the appended block is a space, the groups joined by newline-space, and a newline; the groups are well cut and rejoin to the text |
| Wrap.WrapOfShortLine | lib/jeweler/deb_tasks.rb:125 | a newline-free text of at most 79 characters becomes the single line ` text` |
| Wrap.WrappedLinesFit | lib/jeweler/deb_tasks.rb:125 | every wrapped line of newline-free text holds 1 to 79 characters and no newline |
| Wrap.GroupsWellCut | lib/jeweler/deb_tasks.rb:125 | each group of a well-cut scan holds 1 to 79 characters and no newline |
| Templates.ScriptsRoundTrip | lib/jeweler/deb_tasks.rb:145-149 | the package and the version can be read back from both the `postinst` and the `prerm` script, for a package name without spaces |
| Templates.GemArgumentsOf | lib/jeweler/deb_tasks.rb:146 | `package -v version` splits back into package and version, for a package name without spaces |
| Templates.WrapperRoundTrip | lib/jeweler/deb_tasks.rb:156-166 | the binary's name can be read back from its wrapper script |
| Templates.WrapperInjective | lib/jeweler/deb_tasks.rb:156-166 | two binaries get the same wrapper script iff they are the same binary |
| Templates.DebFileNameRoundTrip | lib/jeweler/deb_tasks.rb:195 | the archive name splits back into the interpolated package, version and architecture when the first two have no `_` |
| Files.KeepOutside | lib/jeweler/deb_tasks.rb:206 | the paths kept by `rm_rf` are exactly those not under the removed root |
| Files.Glob | lib/jeweler/deb_tasks.rb:180 | the paths `Dir['deb/usr/**/*']` lists are exactly those strictly below the root with no hidden component |
| Files.GlobDistinct | lib/jeweler/deb_tasks.rb:180 | the glob lists each path once |
| Files.MkdirEffect | lib/jeweler/deb_tasks.rb:151-152 | `mkdir unless exists?` adds the directory if it is absent and changes nothing else |
| Files.WriteEffect | lib/jeweler/deb_tasks.rb:174-176 | writing a file sets its content, keeps the executable bit of an existing file, makes new files non-executable, and touches no other path |
| Files.ChmodEffect | lib/jeweler/deb_tasks.rb:170 | `chmod 0755` makes a file executable, keeps its content and touches no other path |
| Files.WriteSame | lib/jeweler/deb_tasks.rb:174-176 | rewriting a file with its own content changes nothing |
| Files.ChmodSame | lib/jeweler/deb_tasks.rb:177 | `chmod 0755` of an executable file changes nothing |
| Files.RemoveTreeValid | lib/jeweler/deb_tasks.rb:206 | `rm_rf` keeps the filesystem well formed and keeps exactly the paths outside the root, unchanged |
| Files.RemoveUndoesGrowth | lib/jeweler/deb_tasks.rb:206 | removing a tree that was empty before some growth inside it restores the earlier filesystem exactly |
| Files.GrewInsideTrans | lib/jeweler/deb_tasks.rb:151-185 | growth confined to a tree composes |
| Disk.FileSystem.constructor | lib/jeweler/deb_tasks.rb:151 | the object starts in the given filesystem state |
| Disk.FileSystem.Mkdir | lib/jeweler/deb_tasks.rb:151-152 | the new state is `Files.Mkdir` of the old |
| Disk.FileSystem.Write | lib/jeweler/deb_tasks.rb:169 | the new state is `Files.Write` of the old |
| Disk.FileSystem.Chmod | lib/jeweler/deb_tasks.rb:170 | the new state is `Files.Chmod` of the old |
| Disk.FileSystem.RemoveTree | lib/jeweler/deb_tasks.rb:206 | the new state is `Files.RemoveTree` of the old |
| Staging.StagedBinInjective | lib/jeweler/deb_tasks.rb:169 | distinct binaries get distinct wrapper paths |
| Staging.StageWrapperEffect | lib/jeweler/deb_tasks.rb:155-171 | one pass of the loop skips an installed binary; otherwise it leaves an executable wrapper at `deb/usr/bin/<bin>`, creates `deb/usr` and `deb/usr/bin`, and touches no other path |
| Staging.StageWrappersEffect | lib/jeweler/deb_tasks.rb:154-172 | the loop gives every listed uninstalled binary its wrapper; no other wrapper path appears; nothing outside `deb/usr` changes; inside it, every path other than `deb/usr`, `deb/usr/bin` and those wrappers keeps its node or stays absent |
| Staging.StageWrappersInPlace | lib/jeweler/deb_tasks.rb:154-172 | after the loop every listed uninstalled binary has its wrapper under existing `deb/usr/bin` |
| Staging.StageWrappersStable | lib/jeweler/deb_tasks.rb:154-172 | the loop over wrappers that are already in place changes nothing |
| Staging.WriteScriptsEffect | lib/jeweler/deb_tasks.rb:174-177 | `control` holds the control text and is executable only if it already was an executable file, as `File.open` with `'w'` keeps an existing mode; `postinst` and `prerm` hold their scripts and are executable; only paths in `deb/DEBIAN` change |
| Staging.WriteScriptsFrame | lib/jeweler/deb_tasks.rb:174-177 | every path other than the three DEBIAN files keeps its node or stays absent |
| Staging.WriteScriptsStable | lib/jeweler/deb_tasks.rb:174-177 | rewriting DEBIAN files that already hold these texts and modes changes nothing |
| Staging.Md5SumsCover | lib/jeweler/deb_tasks.rb:179-185 | md5sums has one line `md5  path` per file below `deb/usr`, none for directories or hidden paths, each file once, in glob order |
| Staging.Md5SumsFileIsOutside | lib/jeweler/deb_tasks.rb:185 | writing md5sums does not change the md5sums text, since the file is not below `deb/usr` |
| Staging.StructureEffect | lib/jeweler/deb_tasks.rb:150-185 | the finished tree has `deb` and `deb/DEBIAN`, the three DEBIAN files with their texts, `postinst` and `prerm` executable and `control` executable only if it already was an executable file, and an md5sums file that lists the finished tree; a wrapper path is new iff its binary is listed and not installed; nothing outside `deb` changes |
| Staging.StagedFrame | lib/jeweler/deb_tasks.rb:151-172 | making `deb` and `deb/DEBIAN` and placing the wrappers leaves every other path, apart from `deb/usr` and `deb/usr/bin`, with its node or absent |
| Staging.StructureFrame | lib/jeweler/deb_tasks.rb:150-185 | inside `deb` as well as outside it, every path other than `deb`, `deb/DEBIAN`, `deb/usr`, `deb/usr/bin`, the four DEBIAN files and the wrappers of listed uninstalled binaries keeps its node or stays absent |
| Staging.StructureIdempotent | lib/jeweler/deb_tasks.rb:150-185 | a second pass over the finished tree with the same metadata leaves it exactly as it is |
| Staging.CreateStructureIdempotent | lib/jeweler/deb_tasks.rb:141-187 | running `deb:create_structure` twice leaves the tree of the first run |
| Staging.CreateStructureNeedsControl | lib/jeweler/deb_tasks.rb:141-187 | unless the control text is built nothing is written; otherwise the tree is the finished structure, and `control` holds that text |
| Staging.CleanEffect | lib/jeweler/deb_tasks.rb:203-207 | clean removes exactly `deb` and everything below it, is a no-op without `deb`, and changes no other path |
| Staging.CleanUndoesCreateStructure | lib/jeweler/deb_tasks.rb:141-207 | on a filesystem with nothing in `deb`, clean after create_structure restores the filesystem exactly |
| Staging.BuildOutcomes | lib/jeweler/deb_tasks.rb:190-200 | without `dpkg-deb` the task fails; with `deb` present it only runs `dpkg-deb`; otherwise it first runs create_structure and runs `dpkg-deb` iff that built the tree |
| Staging.BuildCommandNamesArchive | lib/jeweler/deb_tasks.rb:195 | the command builds `deb/` into the archive whose name splits back into package, version and architecture |
| Jeweler.DebTasks.constructor | lib/jeweler/deb_tasks.rb:72-97 | the fields are the gemspec copies after the user block, with `depends` defaulted; both tokens are present, the binaries are kept and there is no control text yet |
| Jeweler.DebTasks.MissingField | lib/jeweler/deb_tasks.rb:110-114 | the five assignments report the last missing mandatory field, and none iff all five are set |
| Jeweler.DebTasks.FieldLines | lib/jeweler/deb_tasks.rb:120-123 | the loop appends exactly the lines of the twelve line fields |
| Jeweler.DebTasks.SetupControlFile | lib/jeweler/deb_tasks.rb:109-129 | the outcome is `SetupControl`; a rejection prints `ERROR! <field>.` and keeps `@control`; a crash leaves the field lines in `@control`; success stores the control text |
| Jeweler.DebTasks.ControlTask | lib/jeweler/deb_tasks.rb:134-139 | the control text is printed iff it is built; `@control` is kept on a rejection, holds the field lines after a crash and the text on success |
| Jeweler.DebTasks.StageWrappers | lib/jeweler/deb_tasks.rb:154-172 | the disk ends as `Staging.StageWrappers` of the listed binaries |
| Jeweler.DebTasks.WriteScripts | lib/jeweler/deb_tasks.rb:174-177 | the disk ends as `Staging.WriteScripts` |
| Jeweler.DebTasks.Md5Sums | lib/jeweler/deb_tasks.rb:179-184 | the accumulated text is `Staging.Md5Sums` of the disk, which `Staging.Md5SumsCover` describes |
| Jeweler.DebTasks.CreateStructure | lib/jeweler/deb_tasks.rb:141-187 | the outcome is `SetupControl`; `@control` is left as `setup_control_file` leaves it; the disk ends as `Staging.CreateStructure` of the old disk |
| Jeweler.DebTasks.Build | lib/jeweler/deb_tasks.rb:189-200 | the result is `Staging.Build`; the disk holds the result's tree when a command ran and is unchanged otherwise; `@control` is left as `setup_control_file` leaves it when `dpkg-deb` is installed and `deb` is absent, and is unchanged otherwise |
| Jeweler.DebTasks.Clean | lib/jeweler/deb_tasks.rb:202-207 | the disk ends as `Staging.Clean` of the old disk |
| Text.DecimalRoundTrip | lib/jeweler/deb_tasks.rb:122 | the digits `Integer#to_s` gives for a non-negative number read back as the number |
| Text.IntDecimalRoundTrip | lib/jeweler/deb_tasks.rb:122 | the text interpolated for any integer `installed_size`, negative ones included (`-` then digits), reads back as the integer |

## Left out

- Rake plumbing: `define`, `namespace`, `desc` and `task` registration, and the
  `jeweler` accessor memoising `Rake.application.jeweler` are not modelled. The task bodies
  are methods of `DebTasks`.
- `Dir['bin/*'].collect { File.basename }` (line 99) is not modelled. The list of binaries
  is a constructor parameter, because the project's `bin/` directory lies outside the
  staging tree the model tracks.
- The user block `yield self` (line 85) is a function `configure` from fields to fields. It
  can set any field but has no other effects.
- `puts` output goes to the terminal, so `ControlTask` returns the printed text and
  `SetupControlFile` returns the error line.
- The `md5sum` program is the function parameter `md5`. Only the `md5  path` line layout is
  modelled.
- The shell quoting of line 182 is not modelled. `md5sum #{f}` passes the path unquoted, so
  a path with spaces or shell metacharacters is split or reinterpreted, and `md5sum` itself
  prefixes a line with `\` when the name holds a backslash or newline. The model always gives
  the one line `md5  path`.
- `dpkg-deb` itself (line 195) is not modelled. `Build` returns the command it would run,
  but no archive or command output is produced, and the archive's name is only proved to
  split back into its parts.
- The `raise` in `build` becomes the result `DpkgDebMissing`. The `NoMethodError` on a nil
  `$DESCRIPTION` becomes the result `Crashed`.
- Filesystem errors (permissions, a file where a directory is expected, full disks) are not
  modelled: every filesystem operation succeeds. `File.exists?('deb/')` is membership of
  the path, without telling files and directories apart.
- The order of `Dir['deb/usr/**/*']` is creation order. Ruby's real order depends on the
  platform.
- File mode bits other than the executable flag are not modelled.
- `Files.Valid` asks only that the creation order and the map hold the same paths, each once.
  It does not ask for a tree: a path's parent directories need not exist, and a file may
  have paths below it. So `Staging.CleanUndoesCreateStructure` requires that no path lies
  in `deb`, not just that `deb` is absent.
- Wrap.WrapOfLine: the wrap is proved for extended descriptions without a newline. For text
  that has newlines, only the match-level facts (`Wrap.MatchWellCut`, `Wrap.ScanCovers`)
  are proved.
- The regex engine itself is not modelled. `Depends.HasToken` and `Wrap.MatchAt` state the
  regexes of lines 91, 94 and 125 directly.
- Depends.DefaultedHasBoth: proves that both tokens are present, not that each appears once. A user value that already holds a token twice keeps both copies, so the code promises no more.
- A gemspec `email` given as an array is not modelled: the email is one string or nil.
