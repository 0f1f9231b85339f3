/** The subsystem list reader: one `name=driver` entry per usable line. */
module ArcadeSystems {
  import opened Common
  import opened Text

  /** One subsystem: its name and the driver source file it stands for. */
  datatype System = System(name: string, driver: string)

  /** One line (with its line terminator, if any): skipped when blank or a
      comment once stripped; otherwise an entry exactly when the raw line
      splits on `=` into two parts, each then stripped. So a line yields an
      entry exactly when it is neither blank nor a comment and holds exactly
      one `=` (what the entry holds is `ParseLineFields`). */
  function ParseLine(line: string): (r: Option<System>)
    ensures r.Some? <==> Strip(line) != [] && Strip(line)[0] != '#' && Count(line, '=') == 1
  {
    var t := Strip(line);
    if t == [] || t[0] == '#' then None
    else
      var parts := Split(line, '=');
      if |parts| == 2 then Some(System(Strip(parts[0]), Strip(parts[1]))) else None
  }

  /** What each line yields, in line order. */
  function LineResults(lines: seq<string>): (rs: seq<Option<System>>)
    ensures |rs| == |lines|
    ensures forall i :: 0 <= i < |lines| ==> rs[i] == ParseLine(lines[i])
  {
    seq(|lines|, i requires 0 <= i < |lines| => ParseLine(lines[i]))
  }

  /** The entries of a file, in line order: at most one per line. */
  function ParseIniFile(lines: seq<string>): (systems: seq<System>)
    ensures |systems| <= |lines|
  {
    Somes(LineResults(lines))
  }

  /** A whitespace-only line is skipped. */
  lemma BlankLineSkipped(line: string)
    requires forall k :: 0 <= k < |line| ==> IsSpace(line[k])
    ensures ParseLine(line) == None
  {
    StripEmptyIffBlank(line);
  }

  /** What an entry holds: the stripped text on each side of the line's single `=`. */
  lemma ParseLineFields(line: string)
    requires ParseLine(line).Some?
    ensures exists i :: 0 <= i < |line| && line[i] == '=' && '=' !in line[..i] && '=' !in line[i + 1..]
                        && ParseLine(line).value == System(Strip(line[..i]), Strip(line[i + 1..]))
  {
    var parts := Split(line, '=');
    assert |parts| == 2;
    SplitTwo(line, '=');
    assert parts[0] in parts && parts[1] in parts;
    SidesOfSeparator(line, parts[0], parts[1]);
    var i := |parts[0]|;
    assert ParseLine(line).value == System(Strip(line[..i]), Strip(line[i + 1..]));
  }

  lemma SidesOfSeparator(line: string, a: string, b: string)
    requires line == a + "=" + b
    ensures line[..|a|] == a && line[|a|] == '=' && line[|a| + 1..] == b
  {
  }

  /** An entry written as `name=driver`, with a name that is not blank, not a
      comment and has no surrounding whitespace and no `=`, and a driver likewise,
      reads back as itself. */
  lemma FormatParse(sys: System)
    requires sys.name != [] && sys.name[0] != '#' && Strip(sys.name) == sys.name && '=' !in sys.name
    requires Strip(sys.driver) == sys.driver && '=' !in sys.driver
    ensures ParseLine(sys.name + "=" + sys.driver) == Some(sys)
  {
    var line := sys.name + "=" + sys.driver;
    var parts := [sys.name, sys.driver];
    assert Join(parts[1..], '=') == sys.driver;
    assert Join(parts, '=') == line;
    SplitJoin(parts, '=');
    assert !IsSpace(sys.name[0]);
    assert line[0] == sys.name[0];
    StripKeepsHead(line);
    EntryOfTwoParts(line, parts);
  }

  /** A line that is neither blank nor a comment and splits into two parts. */
  lemma EntryOfTwoParts(line: string, parts: seq<string>)
    requires Strip(line) != [] && Strip(line)[0] != '#'
    requires Split(line, '=') == parts && |parts| == 2
    ensures ParseLine(line) == Some(System(Strip(parts[0]), Strip(parts[1])))
  {
  }

  /** Parsing is line by line: the entries of two consecutive blocks of lines are
      the entries of the first followed by those of the second. */
  lemma ParseIniFileAppend(a: seq<string>, b: seq<string>)
    ensures ParseIniFile(a + b) == ParseIniFile(a) + ParseIniFile(b)
  {
    var ra, rb := LineResults(a), LineResults(b);
    forall i | 0 <= i < |a + b|
      ensures LineResults(a + b)[i] == (ra + rb)[i]
    {
      if i < |a| {
        assert (a + b)[i] == a[i];
      } else {
        assert (a + b)[i] == b[i - |a|];
      }
    }
    assert LineResults(a + b) == ra + rb;
    SomesAppend(LineResults(a), LineResults(b));
  }

  /** An entry is in the result exactly when some line yields it. */
  lemma ParseIniFileMembers(lines: seq<string>, sys: System)
    ensures sys in ParseIniFile(lines) <==> exists i :: 0 <= i < |lines| && ParseLine(lines[i]) == Some(sys)
  {
    var rs := LineResults(lines);
    SomesMembers(rs, sys);
    if Some(sys) in rs {
      var i :| 0 <= i < |rs| && rs[i] == Some(sys);
      assert ParseLine(lines[i]) == Some(sys);
    }
  }
}
