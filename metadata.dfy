/**
 * What `initialize` takes from the gem specification (lines 72-83) before
 * the configuration block runs: the maintainer composed from the first
 * author and the e-mail, and the initial control fields.
 */
module Metadata {
  import opened Wrappers
  import opened Text
  import opened Control

  /** The gemspec attributes `initialize` reads, plus `jeweler.version`; None is nil. */
  datatype Gemspec = Gemspec(
    name: Option<string>,
    version: Option<string>,
    authors: seq<string>,
    email: Option<string>,
    homepage: Option<string>,
    summary: Option<string>,
    description: Option<string>)

  /** `Array#first`: nil for an empty list. */
  function First(xs: seq<string>): Option<string>
  {
    if xs == [] then None else Some(xs[0])
  }

  /**
   * Lines 77-80: the author, with " <email>" appended unless the author or
   * the e-mail is nil.
   */
  function ComposeMaintainer(author: Option<string>, email: Option<string>): Option<string>
  {
    if author.None? then None
    else if email.None? then author
    else Some(author.value + " <" + email.value + ">")
  }

  /**
   * Reads a maintainer back into the author and the e-mail: the e-mail is
   * what lies between the last '<' (after a space) and a closing '>' at the
   * very end; without that shape the whole text is the author.
   */
  function SplitMaintainer(m: string): (string, Option<string>)
  {
    var k := LastIndexOf(m, '<');
    if 1 <= k < |m| - 1 && m[k - 1] == ' ' && m[|m| - 1] == '>' then
      (m[..k - 1], Some(m[k + 1..|m| - 1]))
    else (m, None)
  }

  /** An e-mail the composed text can be split back at: no angle brackets. */
  predicate PlainEmail(e: string)
  {
    '<' !in e && '>' !in e
  }

  /** An author that cannot be mistaken for a composed maintainer. */
  predicate PlainAuthor(a: string)
  {
    '<' !in a
  }

  /**
   * The maintainer is nil exactly when the author is; otherwise it starts
   * with the author, and it is the bare author exactly when the e-mail is nil.
   */
  lemma MaintainerShape(author: Option<string>, email: Option<string>)
    ensures ComposeMaintainer(author, email).None? <==> author.None?
    ensures author.Some? ==> author.value <= ComposeMaintainer(author, email).value
    ensures author.Some? ==> (ComposeMaintainer(author, email) == author <==> email.None?)
  {
    if author.Some? && email.Some? {
      var m := ComposeMaintainer(author, email).value;
      assert m[..|author.value|] == author.value;
      assert |m| > |author.value|;
    }
  }

  /** Composition and splitting are inverse on authors and e-mails without angle brackets. */
  lemma MaintainerRoundTrip(author: string, email: Option<string>)
    requires PlainAuthor(author)
    requires email.Some? ==> PlainEmail(email.value)
    ensures SplitMaintainer(ComposeMaintainer(Some(author), email).value) == (author, email)
  {
    var m := ComposeMaintainer(Some(author), email).value;
    if email.Some? {
      var e := email.value;
      var k := |author| + 1;
      assert m == author + " " + "<" + e + ">";
      assert m[k] == '<';
      forall j | k < j < |m| ensures m[j] != '<' {
        if j < |m| - 1 {
          assert m[j] == e[j - k - 1];
        }
      }
      assert LastIndexOf(m, '<') == k;
      assert m[..k - 1] == author;
      assert m[k + 1..|m| - 1] == e;
    } else {
      assert m == author;
      assert LastIndexOf(m, '<') == |m|;
    }
  }

  /**
   * The control fields right after lines 74-83: the gemspec values, the
   * architecture "all", every other field nil.
   */
  function InitialFields(g: Gemspec): Fields
  {
    Fields(
      package := g.name,
      source := None,
      version := g.version,
      section := None,
      priority := None,
      architecture := Some("all"),
      essential := None,
      depends := None,
      installedSize := None,
      maintainer := ComposeMaintainer(First(g.authors), g.email),
      homepage := g.homepage,
      description := g.summary,
      descriptionExtended := g.description)
  }

  /**
   * Left unconfigured, the fields pass the mandatory check exactly when the
   * gem has a name, a version, an author and a summary; failing that, the
   * reported field is the last of those missing (the architecture is always set).
   */
  lemma InitialValidation(g: Gemspec)
    ensures LastMissing(InitialFields(g), Mandatory).None? <==>
      g.name.Some? && g.version.Some? && g.authors != [] && g.summary.Some?
    ensures LastMissing(InitialFields(g), Mandatory) ==
      if g.summary.None? then Some(Description)
      else if g.authors == [] then Some(Maintainer)
      else if g.version.None? then Some(Version)
      else if g.name.None? then Some(Package)
      else None
  {
    var t := InitialFields(g);
    MandatoryCheck(t);
    MaintainerShape(First(g.authors), g.email);
  }
}
