/** `read_package_names`, identical in both scraper iterations: one entry
    per line of the package listing, the package name being the line's
    first ';'-separated field after surrounding whitespace is removed. */
module PackageList {
  import opened Text

  /** The package name a line of the listing holds: the stripped line up to,
      not including, its first ';'. */
  function PackageName(line: string): (name: string)
    ensures ';' !in name
    ensures |name| <= |Strip(line)| && name == Strip(line)[..|name|]
    ensures |name| < |Strip(line)| ==> Strip(line)[|name|] == ';'
  {
    Split(Strip(line), ';')[0]
  }

  /** The names of a listing file: exactly one per line, in line order. */
  function ReadPackageNames(content: string): (names: seq<string>)
    ensures |names| == |Lines(content)|
    ensures forall i :: 0 <= i < |names| ==> names[i] == PackageName(Lines(content)[i])
  {
    var lines := Lines(content);
    seq(|lines|, i requires 0 <= i < |lines| => PackageName(lines[i]))
  }

  /** A line without ';' is kept whole, less its surrounding whitespace. */
  lemma NameOfPlainLine(line: string)
    requires ';' !in line
    ensures PackageName(line) == Strip(line)
  {
    var s := Strip(line);
    assert ';' !in s by {
      forall i | 0 <= i < |s|
        ensures s[i] != ';'
      {
        assert s[i] == line[LeadingSpace(line) + i];
      }
    }
  }

  /** A blank line yields the empty name. */
  lemma NameOfBlankLine(line: string)
    requires AllSpace(line)
    ensures PackageName(line) == ""
  {
    assert LeadingSpace(line) == |line|;
  }

  /** A name that does not start with whitespace is read back from in front
      of its first ';', whatever follows. */
  lemma {:induction false} NameBeforeSeparator(name: string, rest: string)
    requires ';' !in name && (name == [] || !IsSpace(name[0]))
    ensures PackageName(name + ";" + rest) == name
  {
    var line := name + ";" + rest;
    var k := |name|;
    assert line[k] == ';';
    assert line[0] == if name == [] then ';' else name[0];
    StripKeepsPrefix(line, k);
    var s := Strip(line);
    assert s[..k + 1] == name + ";";
    assert s == name + s[k..];
    FirstFieldOf(name, ';', s[k..]);
  }

  /** A listing whose last line has no terminator reads as its lines. */
  lemma LinesOfJoined(lines: seq<string>)
    requires |lines| >= 1 && lines[|lines| - 1] != []
    requires forall i :: 0 <= i < |lines| ==> '\n' !in lines[i]
    ensures Lines(Join(lines, '\n')) == lines
  {
    SplitJoin(lines, '\n');
    LinesOfSplit(Join(lines, '\n'), lines);
  }

  lemma LinesOfSplit(content: string, parts: seq<string>)
    requires Split(content, '\n') == parts && parts[|parts| - 1] != []
    ensures Lines(content) == parts
  {
  }

  /** Every line of a listing written line by line gives exactly one name,
      in order, provided no line holds a '\n'. */
  lemma OneNamePerLine(lines: seq<string>)
    requires forall i :: 0 <= i < |lines| ==> '\n' !in lines[i]
    ensures |ReadPackageNames(Written(lines))| == |lines|
    ensures forall i :: 0 <= i < |lines| ==> ReadPackageNames(Written(lines))[i] == PackageName(lines[i])
  {
    LinesOfWritten(lines);
  }
}
