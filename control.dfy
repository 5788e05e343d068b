/**
 * The DEBIAN/control text of `setup_control_file` (lines 109-129): the
 * mandatory-field check and the "<Field>: <value>\n" lines.
 */
module Control {
  import opened Wrappers
  import opened Text
  import Wrap

  datatype FieldName =
    | Package | Source | Version | Section | Priority | Architecture | Essential
    | Depends | InstalledSize | Maintainer | Homepage | Description | DescriptionExtended

  /** `@@control_fields`, in their order. */
  const ControlFields: seq<FieldName> :=
    [Package, Source, Version, Section, Priority, Architecture, Essential,
     Depends, InstalledSize, Maintainer, Homepage, Description, DescriptionExtended]

  /**
   * `field.to_s.capitalize`, the name a control line starts with: Ruby
   * upper-cases the first letter and lower-cases the rest, so the symbol
   * installed_size gives "Installed_size", not Debian's "Installed-Size".
   */
  function Label(f: FieldName): string
  {
    match f
    case Package => "Package"
    case Source => "Source"
    case Version => "Version"
    case Section => "Section"
    case Priority => "Priority"
    case Architecture => "Architecture"
    case Essential => "Essential"
    case Depends => "Depends"
    case InstalledSize => "Installed_size"
    case Maintainer => "Maintainer"
    case Homepage => "Homepage"
    case Description => "Description"
    case DescriptionExtended => "Description_extended"
  }

  /** The control fields of a DebTasks object; None is nil. */
  datatype Fields = Fields(
    package: Option<string>,
    source: Option<string>,
    version: Option<string>,
    section: Option<string>,
    priority: Option<string>,
    architecture: Option<string>,
    essential: Option<bool>,
    depends: Option<string>,
    installedSize: Option<int>,
    maintainer: Option<string>,
    homepage: Option<string>,
    description: Option<string>,
    descriptionExtended: Option<string>)

  /** `send(field)` as string interpolation renders it, or None when it is nil. */
  function Value(t: Fields, f: FieldName): Option<string>
  {
    match f
    case Package => t.package
    case Source => t.source
    case Version => t.version
    case Section => t.section
    case Priority => t.priority
    case Architecture => t.architecture
    case Essential => if t.essential.Some? then Some(BoolText(t.essential.value)) else None
    case Depends => t.depends
    case InstalledSize => if t.installedSize.Some? then Some(IntDecimal(t.installedSize.value)) else None
    case Maintainer => t.maintainer
    case Homepage => t.homepage
    case Description => t.description
    case DescriptionExtended => t.descriptionExtended
  }

  /** `names - [x]`: every occurrence of x removed, the order kept. */
  function Without(names: seq<FieldName>, x: FieldName): (r: seq<FieldName>)
    ensures forall y :: y in r <==> y in names && y != x
    ensures |r| <= |names|
  {
    if names == [] then []
    else (if names[0] == x then [] else [names[0]]) + Without(names[1..], x)
  }

  /**
   * The fields that get a line of their own, `@@control_fields` without the
   * extended description (LineFieldsInOrder shows it is that difference).
   */
  const LineFields: seq<FieldName> :=
    [Package, Source, Version, Section, Priority, Architecture,
     Essential, Depends, InstalledSize, Maintainer, Homepage, Description]

  /** The line a field contributes: nothing when it is nil. */
  function Line(t: Fields, f: FieldName): string
  {
    if Value(t, f).None? then "" else Label(f) + ": " + Value(t, f).value + "\n"
  }

  /** The lines of the listed fields, first to last. */
  function Lines(t: Fields, names: seq<FieldName>): string
  {
    if names == [] then "" else Line(t, names[0]) + Lines(t, names[1..])
  }

  /** The (label, value) pairs of the listed fields that are not nil, in order. */
  function Entries(t: Fields, names: seq<FieldName>): seq<(string, string)>
  {
    if names == [] then []
    else
      var here := if Value(t, names[0]).None? then [] else [(Label(names[0]), Value(t, names[0]).value)];
      here + Entries(t, names[1..])
  }

  /** Appending one field's line extends the lines of a prefix, as the loop does. */
  lemma {:induction false} LinesSnoc(t: Fields, names: seq<FieldName>, f: FieldName)
    ensures Lines(t, names + [f]) == Lines(t, names) + Line(t, f)
  {
    if names == [] {
      assert [f][1..] == [];
    } else {
      assert (names + [f])[1..] == names[1..] + [f];
      LinesSnoc(t, names[1..], f);
    }
  }

  /** The mandatory fields, in the order lines 110-114 test them. */
  const Mandatory: seq<FieldName> := [Package, Version, Architecture, Maintainer, Description]

  /** The message of lines 110-114 for a missing mandatory field (the typo is the source's). */
  function ErrorText(f: FieldName): string
  {
    match f
    case Package => "Packege field for control file is mandatory"
    case Version => "Version field for control file is mandatory"
    case Architecture => "Architecture field for control file is mandatory"
    case Maintainer => "Maintainer field for control file is mandatory"
    case Description => "Description field for control file is mandatory"
    case _ => ""
  }

  /** What line 116 prints. */
  function ErrorLine(f: FieldName): string
  {
    "ERROR! " + ErrorText(f) + ".\n"
  }

  /**
   * The value of `error` after the successive assignments to it: each nil
   * field in the list overwrites the one before, so the last one wins.
   */
  function LastMissing(t: Fields, names: seq<FieldName>): Option<FieldName>
  {
    if names == [] then None
    else if Value(t, names[|names| - 1]).None? then Some(names[|names| - 1])
    else LastMissing(t, names[..|names| - 1])
  }

  /**
   * The error names a nil field of the list, and no field after it is nil;
   * there is no error exactly when none of the listed fields is nil.
   */
  lemma {:induction false} LastMissingIsLast(t: Fields, names: seq<FieldName>)
    ensures LastMissing(t, names).None? <==> forall k :: 0 <= k < |names| ==> Value(t, names[k]).Some?
    ensures LastMissing(t, names).Some? ==>
      exists k :: 0 <= k < |names| && names[k] == LastMissing(t, names).value
        && Value(t, names[k]).None?
        && forall j :: k < j < |names| ==> Value(t, names[j]).Some?
  {
    if names != [] {
      var n := |names| - 1;
      var front := names[..n];
      LastMissingIsLast(t, front);
      if Value(t, names[n]).Some? {
        if LastMissing(t, front).Some? {
          var k :| 0 <= k < |front| && front[k] == LastMissing(t, front).value
            && Value(t, front[k]).None?
            && forall j :: k < j < |front| ==> Value(t, front[j]).Some?;
          assert names[k] == front[k];
          forall j | k < j < |names| ensures Value(t, names[j]).Some? {
            if j < n {
              assert names[j] == front[j];
            }
          }
        } else {
          forall k | 0 <= k < |names| ensures Value(t, names[k]).Some? {
            if k < n {
              assert names[k] == front[k];
            }
          }
        }
      }
    }
  }

  /** What `setup_control_file` leads to. */
  datatype Setup =
    | Rejected(missing: FieldName)      // returns false after printing ErrorLine(missing)
    | Crashed(partial: string)          // `nil.gsub` raises NoMethodError; @control holds the field lines
    | Built(control: string)            // returns true; @control is the text

  /**
   * `@control` after `setup_control_file`: kept on a rejection, the field
   * lines after a crash in the wrap, the whole text on success.
   */
  function ControlAfter(s: Setup, before: Option<string>): Option<string>
  {
    match s
    case Rejected(_) => before
    case Crashed(partial) => Some(partial)
    case Built(text) => Some(text)
  }

  /**
   * The outcome of `setup_control_file`: `globalDescription` is the global
   * `$DESCRIPTION` that line 125 wraps, although the guard tests
   * `description_extended`.
   */
  function SetupControl(t: Fields, globalDescription: Option<string>): Setup
  {
    match LastMissing(t, Mandatory)
    case Some(f) => Rejected(f)
    case None =>
      var body := Lines(t, LineFields);
      if t.descriptionExtended.None? then Built(body)
      else if globalDescription.None? then Crashed(body)
      else Built(body + Wrap.ExtendedBlock(globalDescription.value))
  }

  lemma {:induction false} WithoutAppend(a: seq<FieldName>, b: seq<FieldName>, x: FieldName)
    ensures Without(a + b, x) == Without(a, x) + Without(b, x)
  {
    if a != [] {
      assert (a + b)[1..] == a[1..] + b;
      WithoutAppend(a[1..], b, x);
    } else {
      assert a + b == b;
    }
  }

  lemma {:induction false} WithoutAbsent(a: seq<FieldName>, x: FieldName)
    requires x !in a
    ensures Without(a, x) == a
  {
    if a != [] {
      WithoutAbsent(a[1..], x);
    }
  }

  lemma ControlFieldsSplit()
    ensures ControlFields == LineFields + [DescriptionExtended]
    ensures DescriptionExtended !in LineFields
  {
  }

  /** The line fields are the control fields less the extended description, in order. */
  lemma LineFieldsInOrder()
    ensures LineFields == Without(ControlFields, DescriptionExtended)
  {
    ControlFieldsSplit();
    WithoutAppend(LineFields, [DescriptionExtended], DescriptionExtended);
    WithoutAbsent(LineFields, DescriptionExtended);
    assert Without([DescriptionExtended], DescriptionExtended) == [];
  }

  /** No label holds a colon, so a line's label runs up to its first colon. */
  lemma LabelHasNoColon(f: FieldName)
    ensures ':' !in Label(f)
  {
  }

  /**
   * Reads "<label>: <value>\n" lines back into (label, value) pairs: the label
   * runs to the first colon, the value to the next newline. None when the text
   * is not made of such lines.
   */
  function ParseEntries(s: string): Option<seq<(string, string)>>
    decreases |s|
  {
    if s == [] then Some([])
    else
      var c := IndexOf(s, ':');
      if c + 1 < |s| && s[c + 1] == ' ' then
        var rest := s[c + 2..];
        var n := IndexOf(rest, '\n');
        if n < |rest| then
          match ParseEntries(rest[n + 1..])
          case None => None
          case Some(es) => Some([(s[..c], rest[..n])] + es)
        else None
      else None
  }

  /** One serialised line is read back as its pair, ahead of what follows. */
  lemma ParseLine(key: string, v: string, rest: string)
    requires ':' !in key && '\n' !in v
    ensures ParseEntries(key + ": " + v + "\n" + rest) ==
      if ParseEntries(rest).None? then None else Some([(key, v)] + ParseEntries(rest).value)
  {
    var s := key + ": " + v + "\n" + rest;
    var line := v + ['\n'] + rest;
    var tail := [' '] + line;
    assert s == key + [':'] + tail;
    CutAtFirst(key, ':', tail);
    var c := |key|;
    assert s[c + 1..] == tail;
    assert s[c + 1] == ' ';
    assert s[c + 2..] == line;
    CutAtFirst(v, '\n', rest);
  }

  /** Values without a newline, as the format needs them. */
  predicate SingleLine(t: Fields, names: seq<FieldName>)
  {
    forall k :: 0 <= k < |names| && Value(t, names[k]).Some? ==> '\n' !in Value(t, names[k]).value
  }

  /**
   * The lines can be read back: one pair per non-nil field, in the order of
   * the list, nothing for a nil field.
   */
  lemma {:induction false} LinesRoundTrip(t: Fields, names: seq<FieldName>)
    requires SingleLine(t, names)
    ensures ParseEntries(Lines(t, names)) == Some(Entries(t, names))
  {
    if names != [] {
      var f := names[0];
      assert SingleLine(t, names[1..]) by {
        forall k | 0 <= k < |names[1..]| && Value(t, names[1..][k]).Some?
          ensures '\n' !in Value(t, names[1..][k]).value
        {
          assert names[1..][k] == names[k + 1];
        }
      }
      LinesRoundTrip(t, names[1..]);
      var tail := Lines(t, names[1..]);
      assert Lines(t, names) == Line(t, f) + tail;
      var v := Value(t, f);
      if v.Some? {
        LabelHasNoColon(f);
        assert '\n' !in v.value by {
          assert names[0] == f;
        }
        ParseLine(Label(f), v.value, tail);
        assert Line(t, f) + tail == Label(f) + ": " + v.value + "\n" + tail;
        assert Entries(t, names) == [(Label(f), v.value)] + Entries(t, names[1..]);
      } else {
        assert Line(t, f) + tail == tail;
        assert Entries(t, names) == Entries(t, names[1..]);
      }
    }
  }

  lemma LastMissingSnoc(t: Fields, names: seq<FieldName>, f: FieldName)
    ensures LastMissing(t, names + [f]) == if Value(t, f).None? then Some(f) else LastMissing(t, names)
  {
    assert (names + [f])[..|names|] == names;
  }

  /** The value of `error` after lines 110-114, test by test. */
  lemma MandatoryCheck(t: Fields)
    ensures LastMissing(t, Mandatory) ==
      if t.description.None? then Some(Description)
      else if t.maintainer.None? then Some(Maintainer)
      else if t.architecture.None? then Some(Architecture)
      else if t.version.None? then Some(Version)
      else if t.package.None? then Some(Package)
      else None
  {
    assert [Package][..0] == [];
    assert LastMissing(t, [Package]) == if t.package.None? then Some(Package) else None;
    LastMissingSnoc(t, [Package], Version);
    assert [Package] + [Version] == [Package, Version];
    LastMissingSnoc(t, [Package, Version], Architecture);
    assert [Package, Version] + [Architecture] == [Package, Version, Architecture];
    LastMissingSnoc(t, [Package, Version, Architecture], Maintainer);
    assert [Package, Version, Architecture] + [Maintainer] == [Package, Version, Architecture, Maintainer];
    LastMissingSnoc(t, [Package, Version, Architecture, Maintainer], Description);
    assert [Package, Version, Architecture, Maintainer] + [Description] == Mandatory;
  }

  /**
   * `setup_control_file` fails exactly when a mandatory field is nil, and the
   * message names the LAST nil one in the order package, version,
   * architecture, maintainer, description (each test overwrites `error`).
   */
  lemma SetupRejection(t: Fields, globalDescription: Option<string>)
    ensures SetupControl(t, globalDescription).Rejected? <==>
      t.package.None? || t.version.None? || t.architecture.None? || t.maintainer.None? || t.description.None?
    ensures var r := SetupControl(t, globalDescription);
      && (t.description.None? ==> r == Rejected(Description))
      && (t.description.Some? && t.maintainer.None? ==> r == Rejected(Maintainer))
      && (t.description.Some? && t.maintainer.Some? && t.architecture.None? ==> r == Rejected(Architecture))
      && (t.description.Some? && t.maintainer.Some? && t.architecture.Some? && t.version.None? ==>
            r == Rejected(Version))
      && ((t.description.Some? && t.maintainer.Some? && t.architecture.Some? && t.version.Some?
           && t.package.None?) ==> r == Rejected(Package))
  {
    MandatoryCheck(t);
  }

  /** Fields that differ at most in `description_extended`. */
  predicate SameButExtended(t: Fields, u: Fields)
  {
    u == t.(descriptionExtended := u.descriptionExtended)
  }

  /**
   * The wrapped block comes from the global text: the content of
   * `description_extended` never reaches the control text, only whether it is
   * nil; and with the global text nil the call raises after the field lines.
   */
  lemma WrapReadsGlobalText(t: Fields, u: Fields, globalDescription: Option<string>)
    requires SameButExtended(t, u)
    requires t.descriptionExtended.Some? && u.descriptionExtended.Some?
    ensures SetupControl(t, globalDescription) == SetupControl(u, globalDescription)
    ensures !SetupControl(t, globalDescription).Rejected? && globalDescription.None? ==>
      SetupControl(t, globalDescription) == Crashed(Lines(t, LineFields))
  {
    ControlFieldsSplit();
    LinesIgnoreExtended(t, u, LineFields);
    MandatoryCheck(t);
    MandatoryCheck(u);
  }

  lemma {:induction false} LinesIgnoreExtended(t: Fields, u: Fields, names: seq<FieldName>)
    requires SameButExtended(t, u)
    requires DescriptionExtended !in names
    ensures Lines(t, names) == Lines(u, names)
  {
    if names != [] {
      assert Value(t, names[0]) == Value(u, names[0]);
      LinesIgnoreExtended(t, u, names[1..]);
    }
  }

  /**
   * Without an extended description, the built text reads back as one
   * (label, value) pair per non-nil field, in the order of the field list.
   */
  lemma BuiltTextRoundTrip(t: Fields, globalDescription: Option<string>)
    requires t.descriptionExtended.None?
    requires SingleLine(t, LineFields)
    requires SetupControl(t, globalDescription).Built?
    ensures ParseEntries(SetupControl(t, globalDescription).control) == Some(Entries(t, LineFields))
  {
    LinesRoundTrip(t, LineFields);
  }

  /**
   * Only the five mandatory fields set, and perhaps Depends (which
   * `initialize` always sets).
   */
  predicate MandatoryOnly(t: Fields)
  {
    && t.package.Some? && t.version.Some? && t.architecture.Some?
    && t.maintainer.Some? && t.description.Some?
    && t.source.None? && t.section.None? && t.priority.None? && t.essential.None?
    && t.installedSize.None? && t.homepage.None?
    && t.descriptionExtended.None?
  }

  lemma LinesStep(t: Fields, names: seq<FieldName>, i: nat)
    requires i < |names|
    ensures Lines(t, names[i..]) == Line(t, names[i]) + Lines(t, names[i + 1..])
  {
    assert names[i..][1..] == names[i + 1..];
  }

  /** A nil field between two positions adds no line. */
  lemma SkipNil(t: Fields, names: seq<FieldName>, i: nat)
    requires i < |names| && Value(t, names[i]).None?
    ensures Lines(t, names[i..]) == Lines(t, names[i + 1..])
  {
    LinesStep(t, names, i);
  }

  lemma MandatoryTailNine(t: Fields)
    requires MandatoryOnly(t)
    ensures Lines(t, LineFields[9..]) == Line(t, Maintainer) + Line(t, Description)
  {
    var s := LineFields;
    LinesStep(t, s, 11);
    assert s[12..] == [];
    SkipNil(t, s, 10);
    LinesStep(t, s, 9);
  }

  lemma MandatoryTailFive(t: Fields)
    requires MandatoryOnly(t)
    ensures Lines(t, LineFields[5..]) == Line(t, Architecture) + (Line(t, Depends) + Lines(t, LineFields[9..]))
  {
    var s := LineFields;
    SkipNil(t, s, 8);
    LinesStep(t, s, 7);
    SkipNil(t, s, 6);
    LinesStep(t, s, 5);
  }

  lemma MandatoryFromTwo(t: Fields)
    requires MandatoryOnly(t)
    ensures Lines(t, LineFields[2..]) == Line(t, Version) + Lines(t, LineFields[5..])
  {
    var s := LineFields;
    SkipNil(t, s, 4);
    SkipNil(t, s, 3);
    LinesStep(t, s, 2);
  }

  lemma MandatoryHead(t: Fields)
    requires MandatoryOnly(t)
    ensures Lines(t, LineFields) == Line(t, Package) + Lines(t, LineFields[2..])
  {
    var s := LineFields;
    SkipNil(t, s, 1);
    LinesStep(t, s, 0);
    assert s[0..] == s;
  }

  lemma MandatoryOnlyLines(t: Fields)
    requires MandatoryOnly(t)
    ensures Lines(t, LineFields) ==
      Line(t, Package) + (Line(t, Version) + (Line(t, Architecture) + (Line(t, Depends)
      + (Line(t, Maintainer) + Line(t, Description)))))
  {
    MandatoryHead(t);
    MandatoryFromTwo(t);
    MandatoryTailFive(t);
    MandatoryTailNine(t);
  }

  /** The five lines and the Depends line, spelled out. */
  function MandatoryText(t: Fields): string
    requires MandatoryOnly(t)
  {
    ("Package" + ": " + t.package.value + "\n") +
    (("Version" + ": " + t.version.value + "\n") +
     (("Architecture" + ": " + t.architecture.value + "\n") +
      ((if t.depends.Some? then "Depends" + ": " + t.depends.value + "\n" else "") +
       (("Maintainer" + ": " + t.maintainer.value + "\n") +
        ("Description" + ": " + t.description.value + "\n")))))
  }

  lemma MandatoryOnlySpelled(t: Fields)
    requires MandatoryOnly(t)
    ensures Lines(t, LineFields) == MandatoryText(t)
  {
    MandatoryOnlyLines(t);
    assert Line(t, Package) == "Package" + ": " + t.package.value + "\n";
    assert Line(t, Version) == "Version" + ": " + t.version.value + "\n";
    assert Line(t, Architecture) == "Architecture" + ": " + t.architecture.value + "\n";
    assert Line(t, Depends) == if t.depends.Some? then "Depends" + ": " + t.depends.value + "\n" else "";
    assert Line(t, Maintainer) == "Maintainer" + ": " + t.maintainer.value + "\n";
    assert Line(t, Description) == "Description" + ": " + t.description.value + "\n";
  }

  /**
   * With only the five mandatory fields set, and perhaps Depends, the text is
   * exactly their lines, in the field order: Depends comes between
   * Architecture and Maintainer.
   */
  lemma MandatoryOnlyText(t: Fields, globalDescription: Option<string>)
    requires MandatoryOnly(t)
    ensures SetupControl(t, globalDescription) == Built(MandatoryText(t))
  {
    MandatoryCheck(t);
    MandatoryOnlySpelled(t);
  }
}
