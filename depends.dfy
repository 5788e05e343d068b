/**
 * The Depends defaulting of `DebTasks#initialize`: the entries for the Ruby
 * interpreter and for RubyGems are put in front of the configured list unless
 * a token for them is already there.
 */
module Depends {
  import opened Wrappers

  const RubyEntry := "ruby (>= 1.8.7)"
  const RubygemsEntry := "rubygems (>= 1.3.5)"
  const RubyPrefix := "ruby (>= 1.8.7), "
  /** What a nil Depends becomes: "ruby (>= 1.8.7), rubygems (>= 1.3.5)". */
  const DefaultList := RubyPrefix + RubygemsEntry
  const RubygemsPrefix := "rubygems (>= 1.3.5), "

  predicate Spaces(s: string, i: nat, j: nat)
    requires i <= j <= |s|
  {
    forall k :: i <= k < j ==> s[k] == ' '
  }

  /**
   * The group `(, *|^)` of the pattern can end at p: p starts a line (Ruby's
   * `^` is a line anchor), or a comma and nothing but spaces come before p.
   */
  predicate OpensAt(s: string, p: nat)
    requires p <= |s|
  {
    p == 0 || s[p - 1] == '\n' || exists q :: 0 <= q < p && s[q] == ',' && Spaces(s, q + 1, p)
  }

  /**
   * The tail ` *(,|\(|\[|$)` of the pattern can start at e: optional spaces,
   * then a comma, an opening parenthesis or bracket, or the end of a line.
   */
  predicate ClosesAt(s: string, e: nat)
    requires e <= |s|
  {
    exists j :: e <= j <= |s| && Spaces(s, e, j) && (j == |s| || s[j] in ",([\n")
  }

  /** The pattern `(, *|^)name *(,|\(|\[|$)` matches with name starting at p. */
  predicate TokenAt(s: string, name: string, p: nat)
  {
    && p + |name| <= |s|
    && s[p..p + |name|] == name
    && OpensAt(s, p)
    && ClosesAt(s, p + |name|)
  }

  /** `s.match(/(, *|^)name *(,|\(|\[|$)/)` is not nil. */
  predicate HasToken(s: string, name: string)
  {
    exists p :: 0 <= p <= |s| && TokenAt(s, name, p)
  }

  /** `@depends` after lines 88-97, given its value after configuration. */
  function DefaultDepends(d: Option<string>): string
  {
    match d
    case None => DefaultList
    case Some(s) =>
      var withGems := if HasToken(s, "rubygems") then s else RubygemsPrefix + s;
      if HasToken(withGems, "ruby") then withGems else RubyPrefix + withGems
  }

  /** A name followed by a space and an opening parenthesis at the start of a list is a token. */
  lemma EntryIsToken(name: string, rest: string)
    requires |rest| >= 2 && rest[0] == ' ' && rest[1] == '('
    ensures HasToken(name + rest, name)
  {
    var t := name + rest;
    var e := |name|;
    assert t[e] == ' ' && t[e + 1] == '(';
    assert Spaces(t, e, e + 1);
    assert ClosesAt(t, e);
    assert t[0..|name|] == name;
    assert TokenAt(t, name, 0);
  }

  /** A token survives when something ending in ", " is put in front of the list. */
  lemma PrefixKeepsToken(pre: string, s: string, name: string)
    requires |pre| >= 2 && pre[|pre| - 2] == ',' && pre[|pre| - 1] == ' '
    requires HasToken(s, name)
    ensures HasToken(pre + s, name)
  {
    var p :| 0 <= p <= |s| && TokenAt(s, name, p);
    var t := pre + s;
    var n := |pre|;
    assert t[n + p..n + p + |name|] == s[p..p + |name|];
    // the opening group
    if p == 0 {
      assert t[n - 2] == ',' && Spaces(t, n - 1, n);
    } else if s[p - 1] == '\n' {
      assert t[n + p - 1] == '\n';
    } else {
      var q :| 0 <= q < p && s[q] == ',' && Spaces(s, q + 1, p);
      assert t[n + q] == ',';
      assert Spaces(t, n + q + 1, n + p);
    }
    assert OpensAt(t, n + p);
    // the closing group
    var e := p + |name|;
    var j :| e <= j <= |s| && Spaces(s, e, j) && (j == |s| || s[j] in ",([\n");
    assert Spaces(t, n + e, n + j);
    assert n + j == |t| || t[n + j] in ",([\n";
    assert ClosesAt(t, n + e);
    assert TokenAt(t, name, n + p);
  }

  lemma RubyPrefixShape()
    ensures |RubyPrefix| == 17 && RubyPrefix[15] == ',' && RubyPrefix[16] == ' '
  {
  }

  lemma RubygemsPrefixShape()
    ensures |RubygemsPrefix| == 21 && RubygemsPrefix[19] == ',' && RubygemsPrefix[20] == ' '
  {
  }

  /** The Ruby entry put in front of a list is a token of the result. */
  lemma RubyPrefixIsToken(s: string)
    ensures HasToken(RubyPrefix + s, "ruby")
  {
    assert RubyPrefix + s == "ruby" + (" (>= 1.8.7), " + s);
    EntryIsToken("ruby", " (>= 1.8.7), " + s);
  }

  /** The RubyGems entry put in front of a list is a token of the result. */
  lemma RubygemsPrefixIsToken(s: string)
    ensures HasToken(RubygemsPrefix + s, "rubygems")
  {
    assert RubygemsPrefix + s == "rubygems" + (" (>= 1.3.5), " + s);
    EntryIsToken("rubygems", " (>= 1.3.5), " + s);
  }

  /** Each entry put in front of a list is a token of the result. */
  lemma PrependedEntryIsToken(s: string)
    ensures HasToken(RubyPrefix + s, "ruby")
    ensures HasToken(RubygemsPrefix + s, "rubygems")
  {
    RubyPrefixIsToken(s);
    RubygemsPrefixIsToken(s);
  }

  lemma RubygemsEntryIsToken()
    ensures HasToken(RubygemsEntry, "rubygems")
  {
    assert RubygemsEntry == "rubygems" + " (>= 1.3.5)";
    EntryIsToken("rubygems", " (>= 1.3.5)");
  }

  /** The list a nil Depends becomes holds both tokens. */
  lemma DefaultListHasBoth()
    ensures HasToken(DefaultList, "ruby")
    ensures HasToken(DefaultList, "rubygems")
  {
    PrependedEntryIsToken(RubygemsEntry);
    RubygemsEntryIsToken();
    RubyPrefixShape();
    PrefixKeepsToken(RubyPrefix, RubygemsEntry, "rubygems");
  }

  /** The list always ends up with both tokens, whatever was configured. */
  lemma DefaultedHasBoth(d: Option<string>)
    ensures HasToken(DefaultDepends(d), "ruby")
    ensures HasToken(DefaultDepends(d), "rubygems")
  {
    if d.None? {
      DefaultListHasBoth();
    } else {
      var s := d.value;
      var withGems := if HasToken(s, "rubygems") then s else RubygemsPrefix + s;
      PrependedEntryIsToken(s);
      PrependedEntryIsToken(withGems);
      RubyPrefixShape();
      if !HasToken(withGems, "ruby") {
        PrefixKeepsToken(RubyPrefix, withGems, "rubygems");
      }
    }
  }

  /** Running the defaulting again on its own result changes nothing. */
  lemma DefaultingIdempotent(d: Option<string>)
    ensures DefaultDepends(Some(DefaultDepends(d))) == DefaultDepends(d)
  {
    DefaultedHasBoth(d);
  }

  /**
   * A configured list is kept as a suffix; each entry is put in front at most
   * once, and never when a token for it is already in the configured list.
   */
  lemma {:induction false} DefaultingPrepends(s: string)
    ensures var r := DefaultDepends(Some(s));
      || r == s
      || r == RubygemsPrefix + s
      || r == RubyPrefix + s
      || r == RubyPrefix + RubygemsPrefix + s
    ensures HasToken(s, "rubygems") && HasToken(s, "ruby") ==> DefaultDepends(Some(s)) == s
    ensures HasToken(s, "rubygems") && !HasToken(s, "ruby") ==> DefaultDepends(Some(s)) == RubyPrefix + s
    ensures !HasToken(s, "rubygems") && HasToken(s, "ruby") ==> DefaultDepends(Some(s)) == RubygemsPrefix + s
    ensures !HasToken(s, "rubygems") ==>
      (DefaultDepends(Some(s)) == RubyPrefix + RubygemsPrefix + s <==> !HasToken(RubygemsPrefix + s, "ruby"))
  {
    if HasToken(s, "ruby") && !HasToken(s, "rubygems") {
      RubygemsPrefixShape();
      PrefixKeepsToken(RubygemsPrefix, s, "ruby");
    }
    var r := DefaultDepends(Some(s));
    if !HasToken(s, "rubygems") && r != RubygemsPrefix + s {
      assert r == RubyPrefix + (RubygemsPrefix + s);
    }
  }

  /**
   * The `ruby` pattern is tested after the `rubygems` entry was put in front:
   * "  ruby" holds no `ruby` token (spaces may follow a comma, not a line
   * start), yet it gets only the `rubygems` entry, whose ", " opens one.
   */
  lemma IndentedRubyGetsOnlyGems()
    ensures !HasToken("  ruby", "ruby") && !HasToken("  ruby", "rubygems")
    ensures DefaultDepends(Some("  ruby")) == RubygemsPrefix + "  ruby"
  {
    var s := "  ruby";
    forall p | 0 <= p <= |s| ensures !TokenAt(s, "ruby", p) {
      if p + 4 <= |s| && s[p..p + 4] == "ruby" {
        assert s[p] == s[p..p + 4][0] == 'r';
        assert p == 2;
        assert !OpensAt(s, 2) by {
          assert s[0] != ',' && s[1] != ',';
        }
      }
    }
    var t := RubygemsPrefix + s;
    RubygemsPrefixShape();
    assert t[23..27] == "ruby";
    assert t[19] == ',' && Spaces(t, 20, 23);
    assert OpensAt(t, 23);
    assert Spaces(t, 27, 27);
    assert ClosesAt(t, 27);
    assert TokenAt(t, "ruby", 23);
  }

  /** A `rubygems` token never counts as a `ruby` token. */
  lemma RubygemsIsNotRuby(s: string, p: nat)
    requires TokenAt(s, "rubygems", p)
    ensures !ClosesAt(s, p + 4)
    ensures !TokenAt(s, "ruby", p)
  {
    assert s[p..p + 8] == "rubygems";
    assert s[p + 4] == "rubygems"[4] == 'g';
    forall j | p + 4 <= j <= |s|
      ensures !(Spaces(s, p + 4, j) && (j == |s| || s[j] in ",([\n"))
    {
      if j == p + 4 {
        assert s[j] == 'g';
      } else {
        assert s[p + 4] != ' ';
      }
    }
  }
}
