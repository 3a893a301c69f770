// The text of the save file: what `fprintf` writes and what `fgets` and `strtok` read back.
module SaveFile {
  import opened Wrappers
  import opened FsTree

  const MAX_NAME: nat := 63
  const MAX_FGETS: nat := 255

  /** One record as `save` prints it. */
  function Format(line: Line): string {
    line.name + "," + line.parent + "," + [line.typ] + "\n"
  }

  function Text(lines: seq<Line>): string {
    if lines == [] then "" else Format(lines[0]) + Text(lines[1..])
  }

  // ----- The C library functions on strings without a NUL

  function SkipDelims(s: string, delim: char): (r: string)
    ensures |r| <= |s|
    ensures r != [] ==> r[0] != delim
  {
    if s != [] && s[0] == delim then SkipDelims(s[1..], delim) else s
  }

  function UpTo(s: string, delim: char): (n: nat)
    ensures n <= |s|
  {
    if s == [] || s[0] == delim then 0 else 1 + UpTo(s[1..], delim)
  }

  /** `strtok`: the token, if any, and the rest of the string behind its delimiter. */
  function Strtok(s: string, delim: char): (Option<string>, string) {
    var t := SkipDelims(s, delim);
    var n := UpTo(t, delim);
    if t == [] then (None, [])
    else (Some(t[..n]), if n < |t| then t[n + 1..] else [])
  }

  /** How many characters `fgets` with a buffer of 256 takes: through the first newline, at most 255. */
  function FgetsLength(text: string): (n: nat)
    requires text != []
    ensures 0 < n <= |text|
  {
    var n := UpTo(text, '\n') + 1;
    var m := if n <= |text| then n else |text|;
    if m <= MAX_FGETS then m else MAX_FGETS
  }

  /** What `strtok` finds in a buffer: fewer than two tokens, a name and a parent without a type, or a record. */
  datatype Parsed = Skipped | NoType(name: string, parent: string) | Record(line: Line)

  function ParseLine(buffer: string): Parsed {
    var (name, rest) := Strtok(buffer, ',');
    var (parent, rest') := Strtok(rest, ',');
    var (typ, _) := Strtok(rest', '\n');
    if name == None || parent == None then Skipped
    else if typ == None || typ.value == [] then NoType(name.value, parent.value)
    else Record(Line(name.value, parent.value, typ.value[0]))
  }

  function ParseText(text: string): seq<Parsed> {
    if text == [] then []
    else [ParseLine(text[..FgetsLength(text)])] + ParseText(text[FgetsLength(text)..])
  }

  function Records(parsed: seq<Parsed>): seq<Line> {
    if parsed == [] then []
    else (if parsed[0].Record? then [parsed[0].line] else []) + Records(parsed[1..])
  }

  /**
   * What `reload` does with the buffers it reads; None if it follows the null pointer that stands for a
   * missing type, which it does when that type is needed for a new node.
   */
  function ReloadParsed(t: Forest, parsed: seq<Parsed>): (r: Option<Forest>)
    requires t.Node?
    ensures r.Some? ==> r.value.Node?
    decreases |parsed|
  {
    if parsed == [] then Some(t)
    else match parsed[0]
      case Skipped => ReloadParsed(t, parsed[1..])
      case NoType(name, parent) =>
        if (parent == ROOT_NAME || parent in Names(t)) && name !in Names(t) then None else ReloadParsed(t, parsed[1..])
      case Record(line) => ReloadParsed(AddLine(t, line), parsed[1..])
  }

  // ----- Clean names

  predicate CleanName(name: string) {
    && 0 < |name| <= MAX_NAME
    && forall i :: 0 <= i < |name| ==> name[i] != ',' && name[i] != '\n' && name[i] != '\0'
  }

  predicate CleanLine(line: Line) {
    CleanName(line.name) && CleanName(line.parent) && line.typ != '\n' && line.typ != '\0'
  }

  predicate CleanForest(f: Forest) {
    match f
    case Nil => true
    case Node(name, typ, child, sibling) =>
      CleanName(name) && typ != '\n' && typ != '\0' && CleanForest(child) && CleanForest(sibling)
  }

  // ----- Reading back

  lemma {:induction false} UpToFirst(s: string, delim: char, rest: string)
    requires forall i :: 0 <= i < |s| ==> s[i] != delim
    ensures UpTo(s + [delim] + rest, delim) == |s|
  {
    if s == [] {
      assert s + [delim] + rest == [delim] + rest;
    } else {
      UpToFirst(s[1..], delim, rest);
      assert (s + [delim] + rest)[1..] == s[1..] + [delim] + rest;
    }
  }

  lemma TokenOf(s: string, delim: char, rest: string)
    requires s != [] && forall i :: 0 <= i < |s| ==> s[i] != delim
    ensures Strtok(s + [delim] + rest, delim) == (Some(s), rest)
  {
    var t := s + [delim] + rest;
    assert t[0] == s[0];
    UpToFirst(s, delim, rest);
    assert t[..|s|] == s && t[|s| + 1..] == rest;
  }

  lemma ParseFormat(line: Line)
    requires CleanLine(line)
    ensures ParseLine(Format(line)) == Record(line)
  {
    var rest' := [line.typ] + "\n";
    var rest := line.parent + "," + rest';
    assert Format(line) == line.name + [','] + rest;
    TokenOf(line.name, ',', rest);
    assert rest == line.parent + [','] + rest';
    TokenOf(line.parent, ',', rest');
    assert rest' == [line.typ] + ['\n'] + [];
    TokenOf([line.typ], '\n', []);
  }

  lemma FgetsTakesOneRecord(line: Line, rest: string)
    requires CleanLine(line)
    ensures Format(line) + rest != [] && FgetsLength(Format(line) + rest) == |Format(line)|
  {
    var body := line.name + "," + line.parent + "," + [line.typ];
    assert Format(line) + rest == body + ['\n'] + rest;
    UpToFirst(body, '\n', rest);
  }

  lemma {:induction false} ParseOfText(lines: seq<Line>)
    requires forall i :: 0 <= i < |lines| ==> CleanLine(lines[i])
    ensures Records(ParseText(Text(lines))) == lines
  {
    if lines == [] {
    } else {
      var line, rest := lines[0], Text(lines[1..]);
      FgetsTakesOneRecord(line, rest);
      var text := Format(line) + rest;
      assert text[..|Format(line)|] == Format(line) && text[|Format(line)|..] == rest;
      ParseFormat(line);
      ParseOfText(lines[1..]);
      var parsed := ParseText(text);
      assert parsed[0] == Record(line) && parsed[1..] == ParseText(rest);
      assert lines == [line] + lines[1..];
    }
  }

  lemma {:induction false} LinesAreClean(f: Forest, parent: string)
    requires CleanForest(f) && CleanName(parent)
    ensures forall i :: 0 <= i < |Lines(f, parent)| ==> CleanLine(Lines(f, parent)[i])
  {
    if f == Nil {
    } else {
      LinesAreClean(f.child, f.name);
      LinesAreClean(f.sibling, parent);
    }
  }

  /**
   * The round trip through the text of the file: for names that fit the format, reloading the saved
   * text into a freshly initialised tree gives back the same tree exactly when no name occurs twice.
   */
  lemma {:induction false} TextRoundTrip(t: Forest)
    requires IsRoot(t) && CleanForest(t)
    ensures Records(ParseText(Text(SavedLines(t)))) == SavedLines(t)
    ensures Reload(EmptyRoot(), Records(ParseText(Text(SavedLines(t))))) == t <==> DistinctNames(t)
  {
    LinesAreClean(t, ROOT_NAME);
    ParseOfText(SavedLines(t));
    RoundTrip(t);
  }

  // ----- Exactly the text of the format

  /** A record takes its name, its parent, one character for the type, two commas and a newline. */
  lemma FormatLength(line: Line)
    ensures |Format(line)| == |line.name| + |line.parent| + 4
    ensures Format(line)[|Format(line)| - 1] == '\n'
  {
  }

  lemma {:induction false} TopLines(f: Forest)
    ensures SavedLines(Node(ROOT_NAME, 'D', f, Nil)) == Lines(f, ROOT_NAME)
  {
    assert Lines(Nil, ROOT_NAME) == [];
  }

  lemma LinesOfLeaves(w: Line, x: Line, y: Line, z: Line)
    requires forall l :: l in [w, x, y, z] ==> l.parent == ROOT_NAME && l.name != ROOT_NAME
    ensures var f := Node(w.name, w.typ, Nil, Node(x.name, x.typ, Nil, Node(y.name, y.typ, Nil, Leaf(z.name, z.typ))));
            Lines(f, ROOT_NAME) == [w, x, y, z]
  {
    LinesOfLeaf(z);
    var fy := Node(y.name, y.typ, Nil, Leaf(z.name, z.typ));
    var fx := Node(x.name, x.typ, Nil, fy);
    assert Lines(Nil, w.name) == Lines(Nil, x.name) == Lines(Nil, y.name) == [];
    assert w in [w, x, y, z] && x in [w, x, y, z] && y in [w, x, y, z] && z in [w, x, y, z];
    assert Lines(fy, ROOT_NAME) == [y] + [z];
    assert Lines(fx, ROOT_NAME) == [x] + ([y] + [z]);
    assert Lines(Node(w.name, w.typ, Nil, fx), ROOT_NAME) == [w] + ([x] + ([y] + [z]));
  }

  lemma LinesOfNested(x: Line, y: Line, z: Line)
    requires x.parent == z.parent == ROOT_NAME && y.parent == x.name
    requires x.name != ROOT_NAME && y.name != ROOT_NAME && z.name != ROOT_NAME
    ensures Lines(Node(x.name, x.typ, Leaf(y.name, y.typ), Leaf(z.name, z.typ)), ROOT_NAME) == [x, y, z]
  {
    LinesOfLeaf(y);
    LinesOfLeaf(z);
    assert [x] + [y] + [z] == [x, y, z];
  }

  lemma ThreeLines(x: Line, y: Line, z: Line)
    ensures Text([x, y, z]) == Format(x) + (Format(y) + Format(z))
  {
    hide Format;
    assert [x, y, z][1..] == [y, z] && [y, z][1..] == [z] && [z][1..] == [];
    assert Text([z]) == Format(z) && Text([y, z]) == Format(y) + Format(z);
  }

  lemma FourLines(w: Line, x: Line, y: Line, z: Line)
    ensures Text([w, x, y, z]) == Format(w) + (Format(x) + (Format(y) + Format(z)))
  {
    hide Format;
    ThreeLines(x, y, z);
    assert [w, x, y, z][1..] == [x, y, z];
  }

  /** The text of a tree with four nodes below the root. */
  lemma SavedText()
    ensures var t := Node("g", 'D', Nil, Node("c", 'D', Nil, Node("b", 'F', Nil, Leaf("a", 'D'))));
            Text(SavedLines(Node(ROOT_NAME, 'D', t, Nil))) == "g,/,D\nc,/,D\nb,/,F\na,/,D\n"
  {
    hide Lines, SavedLines, Text;
    var g, c, b, a := Line("g", "/", 'D'), Line("c", "/", 'D'), Line("b", "/", 'F'), Line("a", "/", 'D');
    LinesOfLeaves(g, c, b, a);
    TopLines(Node("g", 'D', Nil, Node("c", 'D', Nil, Node("b", 'F', Nil, Leaf("a", 'D')))));
    FourLines(g, c, b, a);
    assert Format(g) == "g,/,D\n" && Format(c) == "c,/,D\n" && Format(b) == "b,/,F\n" && Format(a) == "a,/,D\n";
    assert Format(g) + (Format(c) + (Format(b) + Format(a))) == "g,/,D\nc,/,D\nb,/,F\na,/,D\n";
  }

  /** The text of a tree with a nested node: what is below a directory comes before its siblings. */
  lemma SavedNestedText()
    ensures var t := Node("a", 'D', Leaf("b", 'F'), Leaf("c", 'D'));
            Text(SavedLines(Node(ROOT_NAME, 'D', t, Nil))) == "a,/,D\nb,a,F\nc,/,D\n"
  {
    hide Lines, SavedLines, Text;
    var a, b, c := Line("a", "/", 'D'), Line("b", "a", 'F'), Line("c", "/", 'D');
    LinesOfNested(a, b, c);
    TopLines(Node("a", 'D', Leaf("b", 'F'), Leaf("c", 'D')));
    ThreeLines(a, b, c);
    assert Format(a) == "a,/,D\n" && Format(b) == "b,a,F\n" && Format(c) == "c,/,D\n";
    assert Format(a) + (Format(b) + Format(c)) == "a,/,D\nb,a,F\nc,/,D\n";
  }

  // ----- Any text

  /** `fgets` takes a line: a newline at most at its end, and at most 255 characters. */
  lemma FgetsIsALine(text: string)
    requires text != []
    ensures var n := FgetsLength(text);
            && n <= 255
            && (forall i :: 0 <= i < n - 1 ==> text[i] != '\n')
            && (n < 255 && n < |text| ==> text[n - 1] == '\n')
  {
    UpToIsFirst(text, '\n');
  }

  lemma {:induction false} UpToIsFirst(s: string, delim: char)
    ensures var n := UpTo(s, delim);
            (forall i :: 0 <= i < n ==> s[i] != delim) && (n < |s| ==> s[n] == delim)
  {
    if s == [] || s[0] == delim {
    } else {
      UpToIsFirst(s[1..], delim);
      var n := UpTo(s, delim);
      assert forall i :: 0 < i < n ==> s[i] == s[1..][i - 1];
    }
  }

  /** How many maximal runs without the delimiter there are in s, by the places where they begin. */
  function Fields(s: string, delim: char): nat {
    if s == [] then 0
    else Fields(s[..|s| - 1], delim) +
         if s[|s| - 1] != delim && (|s| == 1 || s[|s| - 2] == delim) then 1 else 0
  }

  lemma {:induction false} FieldsOfDelims(d: string, delim: char)
    requires forall i :: 0 <= i < |d| ==> d[i] == delim
    ensures Fields(d, delim) == 0
  {
    if d == [] {
    } else {
      FieldsOfDelims(d[..|d| - 1], delim);
    }
  }

  lemma {:induction false} FieldsOfToken(d: string, s: string, delim: char)
    requires s != [] && (forall i :: 0 <= i < |d| ==> d[i] == delim) && forall i :: 0 <= i < |s| ==> s[i] != delim
    ensures Fields(d + s, delim) == 1
  {
    var n := |s| - 1;
    assert (d + s)[..|d + s| - 1] == d + s[..n];
    if n == 0 {
      FieldsOfDelims(d, delim);
      assert d + s[..n] == d;
    } else {
      FieldsOfToken(d, s[..n], delim);
    }
  }

  /** Behind a delimiter the count starts afresh. */
  lemma {:induction false} FieldsBehind(s: string, delim: char, rest: string)
    ensures Fields(s + [delim] + rest, delim) == Fields(s + [delim], delim) + Fields(rest, delim)
  {
    var all := s + [delim] + rest;
    if rest == [] {
      assert all == s + [delim];
    } else {
      var n := |rest| - 1;
      FieldsBehind(s, delim, rest[..n]);
      assert all[..|all| - 1] == s + [delim] + rest[..n];
      assert all[|all| - 1] == rest[n] && all[|all| - 2] == if n > 0 then rest[n - 1] else delim;
    }
  }

  lemma {:induction false} FieldsUpTo(s: string, delim: char)
    ensures Fields(s + [delim], delim) == Fields(s, delim)
  {
    assert (s + [delim])[..|s|] == s;
  }

  lemma {:induction false} SkipDelimsAt(s: string, delim: char)
    ensures var k := |s| - |SkipDelims(s, delim)|;
            SkipDelims(s, delim) == s[k..] && forall i :: 0 <= i < k ==> s[i] == delim
  {
    if s != [] && s[0] == delim {
      SkipDelimsAt(s[1..], delim);
      var k := |s| - |SkipDelims(s, delim)|;
      assert s[1..][k - 1..] == s[k..];
      assert forall i :: 0 < i < k ==> s[i] == s[1..][i - 1];
    }
  }

  lemma {:induction false} FieldsOfFirst(d: string, s: string, delim: char, rest: string)
    requires s != [] && (forall i :: 0 <= i < |d| ==> d[i] == delim) && forall i :: 0 <= i < |s| ==> s[i] != delim
    ensures Fields(d + s + [delim] + rest, delim) == 1 + Fields(rest, delim)
  {
    hide Fields;
    FieldsOfToken(d, s, delim);
    FieldsBehind(d + s, delim, rest);
    FieldsUpTo(d + s, delim);
  }

  /** `strtok` takes away one field, if there is one. */
  lemma {:induction false} StrtokTakesAField(s: string, delim: char)
    ensures var (token, rest) := Strtok(s, delim);
            if token == None then Fields(s, delim) == 0
            else
              && Fields(s, delim) == 1 + Fields(rest, delim)
              && token.value != [] && forall i :: 0 <= i < |token.value| ==> token.value[i] != delim
  {
    hide Fields, SkipDelims, UpTo;
    var t := SkipDelims(s, delim);
    var k, n := |s| - |t|, UpTo(t, delim);
    SkipDelimsAt(s, delim);
    UpToIsFirst(t, delim);
    var d := s[..k];
    assert s == d + t;
    if t == [] {
      FieldsOfDelims(d, delim);
      assert s == d;
    } else if n < |t| {
      assert t == t[..n] + [delim] + t[n + 1..];
      assert d + t == d + t[..n] + [delim] + t[n + 1..];
      FieldsOfFirst(d, t[..n], delim, t[n + 1..]);
    } else {
      FieldsOfToken(d, t, delim);
      FieldsOfDelims([], delim);
      assert t[..n] == t;
    }
  }

  /** A buffer is skipped exactly when it has fewer than two comma-separated fields. */
  lemma {:induction false} SkippedIff(buffer: string)
    ensures ParseLine(buffer) == Skipped <==> Fields(buffer, ',') < 2
  {
    hide Fields, Strtok;
    StrtokTakesAField(buffer, ',');
    StrtokTakesAField(Strtok(buffer, ',').1, ',');
  }

  lemma {:induction false} RecordsBehind(first: Parsed, parsed: seq<Parsed>, t: Forest)
    requires t.Node?
    ensures var t1 := if first.Record? then AddLine(t, first.line) else t;
            Reload(t, Records([first] + parsed)) == Reload(t1, Records(parsed))
  {
    assert ([first] + parsed)[1..] == parsed;
    if first.Record? {
      assert ([first.line] + Records(parsed))[1..] == Records(parsed);
    } else {
      assert Records([first] + parsed) == Records(parsed);
    }
  }

  /** Unless it follows the null pointer, `reload` takes the records of the file one after the other. */
  lemma {:induction false} ReloadRecords(t: Forest, parsed: seq<Parsed>)
    requires t.Node? && ReloadParsed(t, parsed).Some?
    ensures ReloadParsed(t, parsed) == Some(Reload(t, Records(parsed)))
    decreases |parsed|
  {
    hide AddLine;
    if parsed == [] {
    } else {
      RecordsBehind(parsed[0], parsed[1..], t);
      assert [parsed[0]] + parsed[1..] == parsed;
      match parsed[0] {
        case Skipped => ReloadRecords(t, parsed[1..]);
        case NoType(_, _) => ReloadRecords(t, parsed[1..]);
        case Record(line) => ReloadRecords(AddLine(t, line), parsed[1..]);
      }
    }
  }

  /** Clean records have their types. */
  lemma {:induction false} CleanTextRuns(t: Forest, lines: seq<Line>)
    requires t.Node? && forall i :: 0 <= i < |lines| ==> CleanLine(lines[i])
    ensures ReloadParsed(t, ParseText(Text(lines))) == Some(Reload(t, lines))
    decreases |lines|
  {
    hide AddLine, ParseLine, FgetsLength, Format;
    if lines == [] {
    } else {
      var line, rest := lines[0], Text(lines[1..]);
      var text := Format(line) + rest;
      FgetsTakesOneRecord(line, rest);
      assert text[..|Format(line)|] == Format(line) && text[|Format(line)|..] == rest;
      ParseFormat(line);
      assert ParseText(text) == [Record(line)] + ParseText(rest);
      assert ParseText(text)[1..] == ParseText(rest);
      CleanTextRuns(AddLine(t, line), lines[1..]);
    }
  }

  lemma {:induction false} AllDelims(d: string, s: string, delim: char)
    requires (forall i :: 0 <= i < |d| ==> d[i] == delim) && (s != [] ==> s[0] != delim)
    ensures SkipDelims(d + s, delim) == s
    decreases |d|
  {
    if d == [] {
      assert d + s == s;
    } else {
      AllDelims(d[1..], s, delim);
      assert (d + s)[1..] == d[1..] + s;
    }
  }

  lemma TokenBehind(d: string, s: string, delim: char, rest: string)
    requires forall i :: 0 <= i < |d| ==> d[i] == delim
    requires s != [] && forall i :: 0 <= i < |s| ==> s[i] != delim
    ensures Strtok(d + s + [delim] + rest, delim) == (Some(s), rest)
    ensures Strtok(d + s, delim) == (Some(s), [])
  {
    hide SkipDelims, UpTo;
    var t := s + [delim] + rest;
    assert d + s + [delim] + rest == d + t;
    AllDelims(d, t, delim);
    AllDelims(d, s, delim);
    UpToFirst(s, delim, rest);
    UpToEnd(s, delim);
    assert t[..|s|] == s && t[|s| + 1..] == rest && s[..|s|] == s;
  }

  lemma {:induction false} UpToEnd(s: string, delim: char)
    requires forall i :: 0 <= i < |s| ==> s[i] != delim
    ensures UpTo(s, delim) == |s|
  {
    if s == [] {
    } else {
      UpToEnd(s[1..], delim);
    }
  }

  /**
   * A buffer with a name and a parent, behind any number of commas, and something behind the comma after
   * them: the first character of that which is not a newline is the type, whatever follows it.
   */
  lemma ParseRecord(d: string, name: string, d': string, parent: string, newlines: string, tail: string)
    requires (forall i :: 0 <= i < |d| ==> d[i] == ',') && (forall i :: 0 <= i < |d'| ==> d'[i] == ',')
    requires name != [] && parent != [] && ',' !in name && ',' !in parent
    requires (forall i :: 0 <= i < |newlines| ==> newlines[i] == '\n') && tail != [] && tail[0] != '\n'
    ensures ParseLine(d + name + [','] + (d' + parent + [','] + (newlines + tail)))
            == Record(Line(name, parent, tail[0]))
  {
    hide SkipDelims, UpTo;
    TokenBehind(d, name, ',', d' + parent + [','] + (newlines + tail));
    TokenBehind(d', parent, ',', newlines + tail);
    AllDelims(newlines, tail, '\n');
    UpToIsFirst(tail, '\n');
  }

  /** Without that comma, or with only newlines behind it, the type is missing. */
  lemma ParseNoType(d: string, name: string, d': string, parent: string, newlines: string)
    requires (forall i :: 0 <= i < |d| ==> d[i] == ',') && (forall i :: 0 <= i < |d'| ==> d'[i] == ',')
    requires name != [] && parent != [] && ',' !in name && ',' !in parent
    requires forall i :: 0 <= i < |newlines| ==> newlines[i] == '\n'
    ensures ParseLine(d + name + [','] + (d' + parent)) == NoType(name, parent)
    ensures ParseLine(d + name + [','] + (d' + parent + [','] + newlines)) == NoType(name, parent)
  {
    hide SkipDelims, UpTo;
    TokenBehind(d, name, ',', d' + parent);
    TokenBehind(d, name, ',', d' + parent + [','] + newlines);
    TokenBehind(d', parent, ',', newlines);
    AllDelims(newlines, [], '\n');
    AllDelims([], [], '\n');
    assert newlines + [] == newlines;
  }

  /** This buffer needs its missing type. */
  predicate NeedsType(t: Forest, p: Parsed) {
    p.NoType? && (p.parent == ROOT_NAME || p.parent in Names(t)) && p.name !in Names(t)
  }

  lemma {:induction false} CrashWhen(t: Forest, parsed: seq<Parsed>)
    requires t.Node?
    ensures ReloadParsed(t, parsed) == None
            <==> exists k :: 0 <= k < |parsed| && NeedsType(Reload(t, Records(parsed[..k])), parsed[k])
    decreases |parsed|
  {
    hide AddLine, NeedsType, Reload, Records;
    if parsed != [] {
      var first, rest := parsed[0], parsed[1..];
      var t1 := if first.Record? then AddLine(t, first.line) else t;
      NoRecords(t);
      assert parsed[..0] == [];
      if NeedsType(t, first) {
        assert NeedsType(Reload(t, Records(parsed[..0])), parsed[0]);
        CrashNow(t, parsed);
      } else {
        CrashLater(t, parsed);
        CrashWhen(t1, rest);
        forall k | 0 <= k < |rest|
          ensures Reload(t, Records(parsed[..k + 1])) == Reload(t1, Records(rest[..k])) && rest[k] == parsed[k + 1]
        {
          RecordsBehind(first, rest[..k], t);
          assert [first] + rest[..k] == parsed[..k + 1];
        }
        if ReloadParsed(t, parsed) == None {
          var k :| 0 <= k < |rest| && NeedsType(Reload(t1, Records(rest[..k])), rest[k]);
          assert NeedsType(Reload(t, Records(parsed[..k + 1])), parsed[k + 1]);
        } else if k :| 0 <= k < |parsed| && NeedsType(Reload(t, Records(parsed[..k])), parsed[k]) {
          if k == 0 {
            assert false;
          } else {
            assert NeedsType(Reload(t1, Records(rest[..k - 1])), rest[k - 1]);
          }
        }
      }
    }
  }

  lemma {:induction false} NoRecords(t: Forest)
    requires t.Node?
    ensures Reload(t, Records([])) == t
  {
  }

  lemma {:induction false} CrashNow(t: Forest, parsed: seq<Parsed>)
    requires t.Node? && parsed != [] && NeedsType(t, parsed[0])
    ensures ReloadParsed(t, parsed) == None
  {
  }

  lemma CrashLater(t: Forest, parsed: seq<Parsed>)
    requires t.Node? && parsed != [] && !NeedsType(t, parsed[0])
    ensures ReloadParsed(t, parsed) ==
            ReloadParsed(if parsed[0].Record? then AddLine(t, parsed[0].line) else t, parsed[1..])
  {
  }

  /**
   * `reload` follows the null pointer exactly when it reaches a buffer without a type whose parent is in
   * the tree by then and whose name is not.
   */
  lemma {:induction false} CrashIff(t: Forest, parsed: seq<Parsed>)
    requires IsRoot(t)
    ensures ReloadParsed(t, parsed) == None
            <==> exists k :: 0 <= k < |parsed| && parsed[k].NoType?
                             && var names := Names(Reload(t, Records(parsed[..k])));
                                parsed[k].parent in names && parsed[k].name !in names
  {
    CrashWhen(t, parsed);
    forall k | 0 <= k < |parsed|
      ensures var names := Names(Reload(t, Records(parsed[..k])));
              NeedsType(Reload(t, Records(parsed[..k])), parsed[k])
              <==> parsed[k].NoType? && parsed[k].parent in names && parsed[k].name !in names
    {
      ReloadKeepsRoot(t, Records(parsed[..k]));
      RootIsNamed(Reload(t, Records(parsed[..k])));
    }
  }

  /** The text is read buffer by buffer: a whole line, the rest of the text, or 255 characters of a longer line. */
  lemma {:induction false} BufferByBuffer(buffer: string, rest: string)
    requires 0 < |buffer| <= 255 && forall i :: 0 <= i < |buffer| - 1 ==> buffer[i] != '\n'
    requires |buffer| == 255 || buffer[|buffer| - 1] == '\n' || rest == []
    ensures ParseText(buffer + rest) == [ParseLine(buffer)] + ParseText(rest)
  {
    hide ParseLine, FgetsLength;
    var text, n := buffer + rest, |buffer|;
    FgetsIsALine(text);
    var m := FgetsLength(text);
    assert forall i :: 0 <= i < n ==> text[i] == buffer[i];
    var k := if m < n then m - 1 else n - 1;
    assert text[k] == buffer[k];
    assert m == n;
    assert text[..n] == buffer && text[n..] == rest;
  }
}
