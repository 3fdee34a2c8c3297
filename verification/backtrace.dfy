/** Backtrace formatting: each location is printed as its description,
    right-aligned to a common width capped at `MaxWidth`, followed by
    " at " and its position, optionally wrapped in terminal colour codes;
    `to_mri` renders the MRI-style "file:line:in `name'" form instead. A
    location is reduced to the strings and flag the formatter reads. */
module Backtraces {
  import opened Wrappers

  const MaxWidth: nat := 40

  /** ESC, and the colour codes a new backtrace starts with. */
  const Esc: char := '\U{1B}'
  const DefaultFirstColor: string := "\U{1B}[0;31m"
  const DefaultKernelColor: string := "\U{1B}[0;34m"
  const DefaultEvalColor: string := "\U{1B}[0;33m"
  const ClearColor: string := "\U{1B}[0m"

  /** What the formatter asks of a location: `describe`, `position`,
      `is_block`, `name` and `method.name`. */
  datatype Location = Location(
    describe: string,
    position: string,
    isBlock: bool,
    name: string,
    methodName: string)

  /** The three colours are public attributes, so any string. */
  datatype Backtrace = Backtrace(
    locations: seq<Location>,
    colorize: bool,
    firstColor: string,
    kernelColor: string,
    evalColor: string)

  /** `initialize`: colouring is on unless the RBX_NOCOLOR variable is set
      (to anything) or the `rbx.colorize_backtraces` setting is "no" or
      "NO". The environment and configuration are parameters. */
  function Initialize(locations: seq<Location>, noColorEnv: Option<string>, colorConfig: Option<string>): (r: Backtrace)
    ensures r.locations == locations
    ensures !r.colorize <==> noColorEnv.Some? || colorConfig == Some("no") || colorConfig == Some("NO")
    ensures r.firstColor == DefaultFirstColor && r.kernelColor == DefaultKernelColor && r.evalColor == DefaultEvalColor
  {
    var off := noColorEnv.Some? || colorConfig == Some("no") || colorConfig == Some("NO");
    Backtrace(locations, !off, DefaultFirstColor, DefaultKernelColor, DefaultEvalColor)
  }

  /** `pattern` occurs at index `i` of `s`; with `lineStart`, only where
      a line begins (Ruby's `^` anchors after every newline, not only at
      the start of the string). */
  predicate OccursAt(s: string, pattern: string, i: int, lineStart: bool) {
    && 0 <= i && i + |pattern| <= |s|
    && s[i..i + |pattern|] == pattern
    && (lineStart ==> i == 0 || s[i - 1] == '\n')
  }

  /** The regular-expression test as a search from index `from`. */
  function Search(s: string, pattern: string, lineStart: bool, from: nat): (r: bool)
    ensures r <==> exists i :: from <= i && OccursAt(s, pattern, i, lineStart)
    decreases |s| - from
  {
    if from + |pattern| > |s| then false
    else if OccursAt(s, pattern, from, lineStart) then true
    else Search(s, pattern, lineStart, from + 1)
  }

  /** `loc =~ /^kernel/`. */
  predicate KernelPosition(loc: string) {
    Search(loc, "kernel", true, 0)
  }

  /** `loc =~ /\(eval\)/`. */
  predicate EvalPosition(loc: string) {
    Search(loc, "(eval)", false, 0)
  }

  /** `color_from_loc`: the first line's colour for the first line; else
      the kernel colour for a position that has "kernel" at a line start,
      else the eval colour for one containing "(eval)", else none. */
  function ColorFromLoc(b: Backtrace, loc: string, first: bool): (r: string)
    ensures first ==> r == b.firstColor
    ensures !first && (exists i :: OccursAt(loc, "kernel", i, true)) ==> r == b.kernelColor
    ensures !first && (forall i :: !OccursAt(loc, "kernel", i, true)) ==>
      r == if exists i :: OccursAt(loc, "(eval)", i, false) then b.evalColor else ""
  {
    if first then b.firstColor
    else if KernelPosition(loc) then b.kernelColor
    else if EvalPosition(loc) then b.evalColor
    else ""
  }

  /** A kernel file is never mistaken for an eval, whatever else the
      position contains, and "kernel" in the middle of a line does not
      count. */
  lemma {:induction false} KernelColorNeedsLineStart(b: Backtrace)
    requires b.kernelColor != b.evalColor && b.evalColor != ""
    ensures ColorFromLoc(b, "kernel/(eval)", false) == b.kernelColor
    ensures ColorFromLoc(b, "lib/kernel/(eval)", false) == b.evalColor
    ensures ColorFromLoc(b, "lib/x.rb\nkernel/y.rb", false) == b.kernelColor
  {
    assert OccursAt("kernel/(eval)", "kernel", 0, true);
    assert OccursAt("lib/kernel/(eval)", "(eval)", 11, false);
    assert OccursAt("lib/x.rb\nkernel/y.rb", "kernel", 9, true);
    var mid := "lib/kernel/(eval)";
    assert mid[0] != 'k';
    forall i | 0 <= i < |mid| ensures mid[i] != '\n' { }
    assert forall i :: !OccursAt(mid, "kernel", i, true);
  }

  /** The longest description, 0 for no location. */
  function Longest(locations: seq<Location>): (r: nat)
    ensures forall i :: 0 <= i < |locations| ==> |locations[i].describe| <= r
    ensures r == 0 || exists i :: 0 <= i < |locations| && r == |locations[i].describe|
  {
    if |locations| == 0 then 0
    else
      var rest := Longest(locations[1..]);
      assert forall i :: 1 <= i < |locations| ==> locations[i] == locations[1..][i - 1];
      if |locations[0].describe| > rest then |locations[0].describe| else rest
  }

  /** The padding width: the longest description, capped at `MaxWidth`. */
  function Width(locations: seq<Location>): (r: nat)
    ensures r <= MaxWidth
    ensures forall i :: 0 <= i < |locations| ==>
      (|locations[i].describe| <= MaxWidth ==> |locations[i].describe| <= r)
    ensures r == MaxWidth || r == 0 || exists i :: 0 <= i < |locations| && r == |locations[i].describe|
  {
    var longest := Longest(locations);
    if longest > MaxWidth then MaxWidth else longest
  }

  function Spaces(n: nat): (r: string)
    ensures |r| == n && forall i :: 0 <= i < n ==> r[i] == ' '
  {
    seq(n, _ => ' ')
  }

  /** The colour a line gets: none when colouring is off. */
  function LineColor(b: Backtrace, loc: Location, first: bool): string {
    if b.colorize then ColorFromLoc(b, loc.position, first) else ""
  }

  /** The clear code at the end of each line: none when colouring is off. */
  function LineClear(b: Backtrace): string {
    if b.colorize then ClearColor else ""
  }

  /** One line of `show`: the colour, four spaces, the description padded
      on the left to `width`, " at ", the position and the clear code. */
  function FormatLine(b: Backtrace, loc: Location, first: bool, width: nat): (r: string)
    ensures var color := LineColor(b, loc, first);
      var tail := loc.describe + " at " + loc.position + LineClear(b);
      var pad := if width > |loc.describe| then width - |loc.describe| else 0;
      && |r| == |color| + 4 + pad + |tail|
      && r[..|color|] == color
      && (forall i :: |color| <= i < |color| + 4 + pad ==> r[i] == ' ')
      && r[|r| - |tail|..] == tail
  {
    var color := LineColor(b, loc, first);
    var pad := if width > |loc.describe| then width - |loc.describe| else 0;
    var lead := color + ("    " + Spaces(pad));
    var tail := loc.describe + " at " + loc.position + LineClear(b);
    assert forall i :: |color| <= i < |lead| ==> lead[i] == ("    " + Spaces(pad))[i - |color|];
    assert (lead + tail)[..|color|] == color;
    assert (lead + tail)[|lead|..] == tail;
    lead + tail
  }

  /** A description no wider than the width ends at the same column on
      every uncoloured line, so the " at " column lines up. */
  lemma {:induction false} AtColumnAligned(b: Backtrace, loc: Location, first: bool, width: nat)
    requires !b.colorize && |loc.describe| <= width
    ensures var r := FormatLine(b, loc, first, width);
      |r| >= 4 + width + 4 && r[4 + width - |loc.describe|..4 + width] == loc.describe &&
      r[4 + width..4 + width + 4] == " at "
  {
    var r := FormatLine(b, loc, first, width);
    var tail := loc.describe + " at " + loc.position;
    assert r == "    " + Spaces(width - |loc.describe|) + tail;
    assert r[4 + width - |loc.describe|..] == tail;
    assert tail[..|loc.describe|] == loc.describe;
    assert tail[|loc.describe|..|loc.describe| + 4] == " at ";
  }

  /** The formatted lines, only the first one marked first. */
  function Lines(b: Backtrace): (r: seq<string>)
    ensures |r| == |b.locations|
    ensures forall i :: 0 <= i < |r| ==>
      r[i] == FormatLine(b, b.locations[i], i == 0, Width(b.locations))
  {
    var width := Width(b.locations);
    seq(|b.locations|, i requires 0 <= i < |b.locations| => FormatLine(b, b.locations[i], i == 0, width))
  }

  /** `Array#join` on strings. */
  function JoinLines(parts: seq<string>, sep: string): (r: string)
    ensures |parts| == 1 ==> r == parts[0]
    ensures |parts| == 0 ==> r == ""
  {
    if |parts| == 0 then ""
    else if |parts| == 1 then parts[0]
    else parts[0] + sep + JoinLines(parts[1..], sep)
  }

  /** A character in no part and not in the separator is not in the
      joined string. */
  lemma {:induction false} JoinAvoids(parts: seq<string>, sep: string, c: char)
    requires forall i :: 0 <= i < |parts| ==> c !in parts[i]
    requires c !in sep
    ensures c !in JoinLines(parts, sep)
  {
    if |parts| > 1 {
      JoinAvoids(parts[1..], sep, c);
      assert parts[0] + sep + JoinLines(parts[1..], sep) == JoinLines(parts, sep);
      assert c !in parts[0];
    }
  }

  /** The joined length: every part plus one separator between two. */
  function TotalLength(parts: seq<string>): nat {
    if |parts| == 0 then 0 else |parts[0]| + TotalLength(parts[1..])
  }

  lemma {:induction false} JoinLength(parts: seq<string>, sep: string)
    requires |parts| >= 1
    ensures |JoinLines(parts, sep)| == TotalLength(parts) + (|parts| - 1) * |sep|
    decreases |parts|
  {
    if |parts| > 1 {
      JoinLength(parts[1..], sep);
    } else {
      assert parts[1..] == [];
    }
  }

  /** `JoinLength` with the number of parts given by name. */
  lemma {:induction false} JoinLengthOf(parts: seq<string>, sep: string, n: nat)
    requires |parts| == n >= 1
    ensures |JoinLines(parts, sep)| == TotalLength(parts) + (n - 1) * |sep|
  {
    JoinLength(parts, sep);
  }

  /** `show(sep)`: the lines joined by `sep`. */
  function Show(b: Backtrace, sep: string): (r: string)
    ensures |b.locations| == 0 ==> r == ""
    ensures |b.locations| >= 1 ==> |r| == TotalLength(Lines(b)) + (|b.locations| - 1) * |sep|
    ensures |b.locations| == 1 ==> r == FormatLine(b, b.locations[0], true, Width(b.locations))
    ensures |b.locations| >= 2 ==> r == Lines(b)[0] + sep + JoinLines(Lines(b)[1..], sep)
  {
    var lines := Lines(b);
    var n := |b.locations|;
    assert n >= 1 ==> |JoinLines(lines, sep)| == TotalLength(lines) + (n - 1) * |sep| by {
      if n >= 1 { JoinLengthOf(lines, sep, n); }
    }
    JoinLines(lines, sep)
  }

  /** An uncoloured line holds only spaces, " at " and the characters
      of the description and the position. */
  lemma {:induction false} LineAvoids(b: Backtrace, loc: Location, first: bool, width: nat, c: char)
    requires !b.colorize && c != ' ' && c !in " at "
    requires c !in loc.describe && c !in loc.position
    ensures c !in FormatLine(b, loc, first, width)
  {
    var pad := if width > |loc.describe| then width - |loc.describe| else 0;
    assert c !in Spaces(pad);
    assert LineColor(b, loc, first) == "" && LineClear(b) == "";
  }

  /** With colouring off no escape code is emitted: ESC appears in the
      output only if some description, position or the separator has one. */
  lemma {:induction false} NoColorNoEscape(b: Backtrace, sep: string)
    requires !b.colorize && Esc !in sep
    requires forall i :: 0 <= i < |b.locations| ==>
      Esc !in b.locations[i].describe && Esc !in b.locations[i].position
    ensures Esc !in Show(b, sep)
  {
    var lines := Lines(b);
    forall i | 0 <= i < |lines|
      ensures Esc !in lines[i]
    {
      LineAvoids(b, b.locations[i], i == 0, Width(b.locations), Esc);
    }
    JoinAvoids(lines, sep, Esc);
  }

  /** With colouring on, only the first line takes the first colour and
      every line ends with the clear code. */
  lemma {:induction false} ColoredLines(b: Backtrace, i: nat)
    requires b.colorize && i < |b.locations|
    ensures Lines(b)[i][..|ColorFromLoc(b, b.locations[i].position, i == 0)|]
      == ColorFromLoc(b, b.locations[i].position, i == 0)
  {
    var line := Lines(b)[i];
    assert line == FormatLine(b, b.locations[i], i == 0, Width(b.locations));
    ColoredLine(b, b.locations[i], i == 0, Width(b.locations), line);
  }

  /** Each coloured line ends with the clear code. */
  lemma {:induction false} ClearedLines(b: Backtrace, i: nat)
    requires b.colorize && i < |b.locations|
    ensures |Lines(b)[i]| >= |ClearColor|
    ensures Lines(b)[i][|Lines(b)[i]| - |ClearColor|..] == ClearColor
  {
    var line := FormatLine(b, b.locations[i], i == 0, Width(b.locations));
    ColoredLine(b, b.locations[i], i == 0, Width(b.locations), line);
    assert Lines(b)[i] == line;
  }

  /** The first line takes the first-line colour. */
  lemma {:induction false} FirstLineColored(b: Backtrace)
    requires b.colorize && |b.locations| > 0
    ensures Lines(b)[0][..|b.firstColor|] == b.firstColor
  {
    ColoredLines(b, 0);
  }

  /** A coloured line starts with its colour and ends with the clear
      code. */
  lemma {:induction false} ColoredLine(b: Backtrace, loc: Location, first: bool, width: nat, line: string)
    requires b.colorize && line == FormatLine(b, loc, first, width)
    ensures line[..|ColorFromLoc(b, loc.position, first)|] == ColorFromLoc(b, loc.position, first)
    ensures |line| >= |ClearColor|
    ensures line[|line| - |ClearColor|..] == ClearColor
  {
    assert LineClear(b) == ClearColor && LineColor(b, loc, first) == ColorFromLoc(b, loc.position, first);
    var tail := loc.describe + " at " + loc.position + ClearColor;
    assert tail[|tail| - |ClearColor|..] == ClearColor;
    SuffixOfSuffix(line, tail, ClearColor);
  }

  lemma {:induction false} SuffixOfSuffix(a: string, t: string, c: string)
    requires |t| <= |a| && a[|a| - |t|..] == t
    requires |c| <= |t| && t[|t| - |c|..] == c
    ensures a[|a| - |c|..] == c
  {
    assert a[|a| - |c|..] == a[|a| - |t|..][|t| - |c|..];
  }

  /** `join(sep)` as written: it calls `show` without passing `sep`, so the
      lines are always separated by newlines. */
  function JoinAsWritten(b: Backtrace, sep: string): (r: string)
    ensures r == Join(b, "\n")
  {
    Show(b, "\n")
  }

  /** With two or more locations and a separator other than one
      character long (", " say), the result as written differs from the
      lines joined by the separator: the lengths already disagree. */
  lemma {:induction false} JoinAsWrittenIgnoresSeparator(b: Backtrace, sep: string)
    requires |b.locations| >= 2 && |sep| != 1
    ensures JoinAsWritten(b, sep) != Join(b, sep)
  {
    var gaps := |b.locations| - 1;
    var total := TotalLength(Lines(b));
    var written := Show(b, "\n");
    var joined := Show(b, sep);
    assert |written| != |joined| by {
      assert |written| == total + gaps * 1;
      assert |joined| == total + gaps * |sep|;
      if |sep| == 0 {
        assert gaps * |sep| == 0;
      } else {
        assert gaps * |sep| >= gaps * 2 by { MulMonotone(gaps, 2, |sep|); }
      }
    }
    assert JoinAsWritten(b, sep) == written && Join(b, sep) == joined;
  }

  lemma {:induction false} MulMonotone(a: nat, x: nat, y: nat)
    requires x <= y
    ensures a * x <= a * y
  {
  }

  /** `join(sep)` corrected: `show(sep)`. */
  function Join(b: Backtrace, sep: string): (r: string)
    ensures |b.locations| >= 2 ==>
      r == Lines(b)[0] + sep + JoinLines(Lines(b)[1..], sep)
    ensures |b.locations| == 1 ==> r == Lines(b)[0]
  {
    Show(b, sep)
  }

  /** The method part of an MRI line: "name {}" for a block, "name" when
      the name is the method's, "name (method)" otherwise. */
  function MriMethod(loc: Location): (r: string)
    ensures |loc.name| <= |r| && r[..|loc.name|] == loc.name
    ensures r == loc.name <==> !loc.isBlock && loc.name == loc.methodName
    ensures loc.isBlock ==> r[|loc.name|..] == " {}"
    ensures !loc.isBlock && loc.name != loc.methodName ==>
      r[|loc.name|..] == " (" + loc.methodName + ")"
  {
    if loc.isBlock then loc.name + " {}"
    else if loc.name == loc.methodName then loc.name
    else loc.name + " (" + loc.methodName + ")"
  }

  /** One entry of `to_mri`: "position:in `method'". The position and the
      method part can be read back from it. */
  function MriLine(loc: Location): (r: string)
    ensures |r| == |loc.position| + 5 + |MriMethod(loc)| + 1
    ensures r[..|loc.position|] == loc.position
    ensures r[|loc.position|..|loc.position| + 5] == ":in `"
    ensures r[|loc.position| + 5..|r| - 1] == MriMethod(loc)
    ensures r[|r| - 1] == '\''
  {
    var r := loc.position + ":in `" + MriMethod(loc) + "'";
    assert r[|loc.position| + 5..|r| - 1] == MriMethod(loc);
    r
  }

  /** `to_mri`: one MRI line per location, in order. */
  function ToMri(b: Backtrace): (r: seq<string>)
    ensures |r| == |b.locations|
    ensures forall i :: 0 <= i < |r| ==> r[i] == MriLine(b.locations[i])
  {
    seq(|b.locations|, i requires 0 <= i < |b.locations| => MriLine(b.locations[i]))
  }

  /** Two locations with the same position length give the same MRI line
      only when they have the same position and method part. */
  lemma {:induction false} MriLineInjective(a: Location, c: Location)
    requires |a.position| == |c.position| && MriLine(a) == MriLine(c)
    ensures a.position == c.position && MriMethod(a) == MriMethod(c)
  {
    var r := MriLine(a);
    assert a.position == r[..|a.position|];
    assert MriMethod(a) == r[|a.position| + 5..|r| - 1];
  }
}
