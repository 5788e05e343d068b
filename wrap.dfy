/**
 * The extended-description block of `setup_control_file` (line 125):
 *
 *   " " + text.gsub(/(.{1,79})( +|$\n?)|(.{1,79})/, "\\1\\3\n ")[0..-3] + "\n"
 *
 * `.` matches any character but a newline, `$` is the end of a line, and the
 * greedy `.{1,79}` backtracks to the longest run after which a space run or
 * the end of the line follows; only when there is none does the second
 * alternative cut 79 characters (or the rest of the line) unconditionally.
 */
module Wrap {
  import opened Text

  const Width := 79

  function Min(a: nat, b: nat): nat
  {
    if a <= b then a else b
  }

  /** Position of the first newline at or after i, or |s|: where `$` can match. */
  function LineEnd(s: string, i: nat): (e: nat)
    requires i <= |s|
    ensures i <= e <= |s|
    ensures forall k :: i <= k < e ==> s[k] != '\n'
    ensures e == |s| || s[e] == '\n'
    decreases |s| - i
  {
    if i == |s| || s[i] == '\n' then i else LineEnd(s, i + 1)
  }

  /** The first alternative can stop its group after k characters taken at i (line end e). */
  predicate BreaksAt(s: string, i: nat, e: nat, k: nat)
    requires i + k <= e <= |s|
  {
    i + k == e || s[i + k] == ' '
  }

  /**
   * The length backtracking settles on: the largest k <= m at which the first
   * alternative can stop, or 0 when it cannot stop anywhere.
   */
  function BreakLength(s: string, i: nat, e: nat, m: nat): (k: nat)
    requires i + m <= e <= |s|
    ensures k <= m
    ensures k > 0 ==> BreaksAt(s, i, e, k)
    ensures forall j :: k < j <= m ==> !BreaksAt(s, i, e, j)
    decreases m
  {
    if m == 0 then 0 else if BreaksAt(s, i, e, m) then m else BreakLength(s, i, e, m - 1)
  }

  /** End of the run of spaces starting at j: what the greedy ` +` consumes. */
  function SpaceRunEnd(s: string, j: nat): (r: nat)
    requires j <= |s|
    ensures j <= r <= |s|
    ensures forall k :: j <= k < r ==> s[k] == ' '
    ensures r == |s| || s[r] != ' '
    decreases |s| - j
  {
    if j == |s| || s[j] != ' ' then j else SpaceRunEnd(s, j + 1)
  }

  /**
   * What gsub does at one point of its scan: a character no match starts at
   * (only a newline) is kept; a match is replaced by its group and "\n ".
   */
  datatype Segment = Kept(c: char) | Replaced(group: string, consumed: string)

  lemma SliceSplit(s: string, a: nat, b: nat, c: nat)
    requires a <= b <= c <= |s|
    ensures s[a..c] == s[a..b] + s[b..c]
  {
  }

  /**
   * The match that starts at i, where the text holds no newline, and the
   * position after it. The cut is greedy: no longer group could have stopped
   * at a space or at the end of the line, and a cut that consumes nothing
   * inside a line happens only after 79 characters with no space among the
   * next 79 positions.
   */
  function MatchAt(s: string, i: nat): (r: (Segment, nat))
    requires i < |s| && s[i] != '\n'
    ensures i < r.1 <= |s|
    ensures r.0.Replaced? && r.0.group + r.0.consumed == s[i..r.1]
    ensures var e := LineEnd(s, i);
      forall d :: |r.0.group| < d <= Width && i + d <= e ==> !BreaksAt(s, i, e, d)
    ensures var e := LineEnd(s, i);
      r.0.consumed == "" && i + |r.0.group| < e ==>
        && |r.0.group| == Width && i + Width < e
        && forall d :: 0 < d <= Width ==> !BreaksAt(s, i, e, d)
  {
    var e := LineEnd(s, i);
    var m := Min(Width, e - i);
    var k := BreakLength(s, i, e, m);
    if k > 0 then
      var j: nat := i + k;
      assert i < j <= e <= |s|;
      var next: nat := if j < e then SpaceRunEnd(s, j) else if e < |s| then e + 1 else e;
      assert j <= next <= |s|;
      SliceSplit(s, i, j, next);
      (Replaced(s[i..j], s[j..next]), next)
    else
      (Replaced(s[i..i + m], ""), i + m)
  }

  /** The matches gsub finds from position i on, left to right. */
  function Scan(s: string, i: nat): seq<Segment>
    requires i <= |s|
    decreases |s| - i
  {
    if i == |s| then []
    else if s[i] == '\n' then [Kept('\n')] + Scan(s, i + 1)
    else
      var (x, next) := MatchAt(s, i);
      [x] + Scan(s, next)
  }

  /** The text the segments were cut from. */
  function Original(segs: seq<Segment>): string
  {
    if segs == [] then "" else Piece(segs[0]) + Original(segs[1..])
  }

  /** The text one segment was cut from. */
  function Piece(x: Segment): string
  {
    match x
    case Kept(c) => [c]
    case Replaced(g, r) => g + r
  }

  lemma OriginalCons(x: Segment, rest: seq<Segment>)
    ensures Original([x] + rest) == Piece(x) + Original(rest)
  {
    assert ([x] + rest)[1..] == rest;
  }

  lemma SliceCons(s: string, i: nat, next: nat)
    requires i <= next <= |s|
    ensures s[i..] == s[i..next] + s[next..]
  {
  }

  /** The text gsub returns for the segments. */
  function Substituted(segs: seq<Segment>): string
  {
    if segs == [] then ""
    else
      (match segs[0]
       case Kept(c) => [c]
       case Replaced(g, _) => g + "\n ") + Substituted(segs[1..])
  }

  /** The groups, that is, the lines of the wrapped text. */
  function Groups(segs: seq<Segment>): seq<string>
  {
    if segs == [] then []
    else if segs[0].Replaced? then [segs[0].group] + Groups(segs[1..])
    else Groups(segs[1..])
  }

  /** `str[0..-3]`: all but the last two characters. */
  function DropLastTwo(s: string): string
  {
    if |s| >= 2 then s[..|s| - 2] else ""
  }

  /** The text line 125 appends to the control buffer for the wrapped text. */
  function ExtendedBlock(text: string): string
  {
    " " + DropLastTwo(Substituted(Scan(text, 0))) + "\n"
  }

  /** What a match may consume after its group: a space run, one newline, or nothing. */
  predicate Separator(r: string)
  {
    r == "" || r == "\n" || (|r| > 0 && forall k :: 0 <= k < |r| ==> r[k] == ' ')
  }

  /** Every match is a non-empty group of at most 79 newline-free characters. */
  predicate WellCut(segs: seq<Segment>)
  {
    forall k :: 0 <= k < |segs| ==>
      match segs[k]
      case Kept(c) => c == '\n'
      case Replaced(g, r) => 1 <= |g| <= Width && '\n' !in g && Separator(r)
  }

  lemma WellCutCons(x: Segment, rest: seq<Segment>)
    requires WellCut([x]) && WellCut(rest)
    ensures WellCut([x] + rest)
  {
    var segs := [x] + rest;
    forall k | 0 <= k < |segs|
      ensures match segs[k]
        case Kept(c) => c == '\n'
        case Replaced(g, r) => 1 <= |g| <= Width && '\n' !in g && Separator(r)
    {
      if k > 0 {
        assert segs[k] == rest[k - 1];
      }
    }
  }

  lemma SliceHasNoNewline(s: string, a: nat, b: nat)
    requires a <= b <= |s|
    requires forall k :: a <= k < b ==> s[k] != '\n'
    ensures '\n' !in s[a..b]
  {
    forall q | 0 <= q < b - a ensures s[a..b][q] != '\n' {
      assert s[a..b][q] == s[a + q];
    }
  }

  lemma SliceIsSpaces(s: string, a: nat, b: nat)
    requires a < b <= |s|
    requires forall k :: a <= k < b ==> s[k] == ' '
    ensures Separator(s[a..b])
  {
    var r := s[a..b];
    forall q | 0 <= q < |r| ensures r[q] == ' ' {
      assert r[q] == s[a + q];
    }
  }

  /** The match found at a position that holds no newline is well cut. */
  lemma MatchWellCut(s: string, i: nat)
    requires i < |s| && s[i] != '\n'
    ensures var x := MatchAt(s, i).0;
      1 <= |x.group| <= Width && '\n' !in x.group && Separator(x.consumed)
    ensures var (x, next) := MatchAt(s, i);
      |x.consumed| > 0 && x.consumed[0] == ' ' ==> next == |s| || s[next] != ' '
  {
    var e := LineEnd(s, i);
    var m := Min(Width, e - i);
    var k := BreakLength(s, i, e, m);
    if k > 0 {
      var j := i + k;
      var next := if j < e then SpaceRunEnd(s, j) else if e < |s| then e + 1 else e;
      SliceHasNoNewline(s, i, j);
      if j < e {
        SliceIsSpaces(s, j, next);
      } else if e < |s| {
        assert s[j..next] == [s[e]];
      }
    } else {
      SliceHasNoNewline(s, i, i + m);
    }
  }

  /** A group that runs to the end of a line is followed by that line's newline, which the match consumes. */
  lemma MatchTakesNewline(s: string, i: nat)
    requires i < |s| && s[i] != '\n'
    ensures var x := MatchAt(s, i).0;
      i + |x.group| == LineEnd(s, i) < |s| ==> x.consumed == "\n"
  {
    var e := LineEnd(s, i);
    var m := Min(Width, e - i);
    var k := BreakLength(s, i, e, m);
    if k > 0 && i + k == e && e < |s| {
      assert s[i + k..e + 1] == [s[e]];
    }
  }

  /** The scan loses nothing: groups and consumed text, read in order, give back the text. */
  lemma {:induction false} ScanCovers(s: string, i: nat)
    requires i <= |s|
    ensures Original(Scan(s, i)) == s[i..]
    decreases |s| - i
  {
    if i == |s| {
    } else if s[i] == '\n' {
      ScanCovers(s, i + 1);
      OriginalCons(Kept('\n'), Scan(s, i + 1));
      SliceCons(s, i, i + 1);
      assert s[i..i + 1] == [s[i]];
    } else {
      var (x, next) := MatchAt(s, i);
      ScanCovers(s, next);
      OriginalCons(x, Scan(s, next));
      SliceCons(s, i, next);
    }
  }

  /** Every match the scan finds is well cut. */
  lemma {:induction false} ScanWellCut(s: string, i: nat)
    requires i <= |s|
    ensures WellCut(Scan(s, i))
    decreases |s| - i
  {
    if i == |s| {
    } else if s[i] == '\n' {
      ScanWellCut(s, i + 1);
      WellCutCons(Kept('\n'), Scan(s, i + 1));
    } else {
      var (x, next) := MatchAt(s, i);
      MatchWellCut(s, i);
      ScanWellCut(s, next);
      WellCutCons(x, Scan(s, next));
    }
  }

  predicate AllReplaced(segs: seq<Segment>)
  {
    forall k :: 0 <= k < |segs| ==> segs[k].Replaced?
  }

  /** In newline-free text every character belongs to a match. */
  lemma {:induction false} ScanOfLine(s: string, i: nat)
    requires i <= |s|
    requires forall k :: i <= k < |s| ==> s[k] != '\n'
    ensures AllReplaced(Scan(s, i))
    ensures i < |s| <==> Scan(s, i) != []
    decreases |s| - i
  {
    if i < |s| {
      var (x, next) := MatchAt(s, i);
      ScanOfLine(s, next);
      var segs := Scan(s, i);
      assert segs == [x] + Scan(s, next);
      forall k | 0 <= k < |segs| ensures segs[k].Replaced? {
        if k > 0 {
          assert segs[k] == Scan(s, next)[k - 1];
        }
      }
    }
  }

  /** Substituting matches only joins their groups with "\n " and ends with "\n ". */
  lemma {:induction false} SubstitutedJoins(segs: seq<Segment>)
    requires AllReplaced(segs) && segs != []
    ensures Substituted(segs) == Join(Groups(segs), "\n ") + "\n "
  {
    var rest := segs[1..];
    assert AllReplaced(rest) by {
      forall k | 0 <= k < |rest| ensures rest[k].Replaced? {
        assert rest[k] == segs[k + 1];
      }
    }
    if rest == [] {
      assert Groups(segs) == [segs[0].group];
    } else {
      SubstitutedJoins(rest);
      assert Groups(segs) == [segs[0].group] + Groups(rest);
      assert Groups(rest) != [] by {
        assert Groups(rest) == [rest[0].group] + Groups(rest[1..]);
      }
    }
  }

  /** Concatenation of the groups with what each match consumed. */
  function Rejoined(segs: seq<Segment>): string
    requires AllReplaced(segs)
  {
    if segs == [] then "" else segs[0].group + segs[0].consumed + Rejoined(segs[1..])
  }

  lemma {:induction false} RejoinedIsOriginal(segs: seq<Segment>)
    requires AllReplaced(segs)
    ensures Rejoined(segs) == Original(segs)
  {
    if segs != [] {
      assert AllReplaced(segs[1..]) by {
        forall k | 0 <= k < |segs[1..]| ensures segs[1..][k].Replaced? {
          assert segs[1..][k] == segs[k + 1];
        }
      }
      RejoinedIsOriginal(segs[1..]);
    }
  }

  /**
   * For newline-free text the block is " " + the lines joined by "\n " + "\n";
   * the lines are non-empty, newline-free, at most 79 characters each, and
   * putting back what each cut consumed gives the text again.
   */
  lemma WrapOfLine(text: string)
    requires '\n' !in text
    ensures var segs := Scan(text, 0);
      && AllReplaced(segs)
      && ExtendedBlock(text) == " " + Join(Groups(segs), "\n ") + "\n"
      && WellCut(segs)
      && Rejoined(segs) == text
  {
    var segs := Scan(text, 0);
    ScanOfLine(text, 0);
    ScanWellCut(text, 0);
    ScanCovers(text, 0);
    RejoinedIsOriginal(segs);
    assert text[0..] == text;
    if segs != [] {
      SubstitutedJoins(segs);
      var joined := Join(Groups(segs), "\n ");
      assert DropLastTwo(joined + "\n ") == joined;
    }
  }

  /** A newline-free text of at most 79 characters is one line: " " + text + "\n". */
  lemma WrapOfShortLine(text: string)
    requires '\n' !in text && |text| <= Width
    ensures ExtendedBlock(text) == " " + text + "\n"
  {
    if text != [] {
      var e := LineEnd(text, 0);
      assert e == |text|;
      assert BreaksAt(text, 0, e, |text|);
      var (x, next) := MatchAt(text, 0);
      assert x == Replaced(text, "") && next == |text|;
      assert Scan(text, 0) == [x];
      assert Substituted([x]) == text + "\n ";
    }
  }

  /** In newline-free text every line of the block holds at most 79 characters. */
  lemma WrappedLinesFit(text: string, k: nat)
    requires '\n' !in text
    requires k < |Groups(Scan(text, 0))|
    ensures 1 <= |Groups(Scan(text, 0))[k]| <= Width
    ensures '\n' !in Groups(Scan(text, 0))[k]
  {
    ScanWellCut(text, 0);
    GroupsWellCut(Scan(text, 0), k);
  }

  lemma {:induction false} GroupsWellCut(segs: seq<Segment>, k: nat)
    requires WellCut(segs) && k < |Groups(segs)|
    ensures 1 <= |Groups(segs)[k]| <= Width && '\n' !in Groups(segs)[k]
  {
    var rest := segs[1..];
    assert WellCut(rest) by {
      forall q | 0 <= q < |rest|
        ensures match rest[q]
          case Kept(c) => c == '\n'
          case Replaced(g, r) => 1 <= |g| <= Width && '\n' !in g && Separator(r)
      {
        assert rest[q] == segs[q + 1];
      }
    }
    if segs[0].Replaced? {
      if k > 0 {
        GroupsWellCut(rest, k - 1);
      } else {
        assert segs[0] == segs[0];
      }
    } else {
      GroupsWellCut(rest, k);
    }
  }
}
