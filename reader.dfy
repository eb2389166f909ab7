/**
 * ini_cfg_read: the lines of a file, as fgets hands them out, folded into a configuration.
 * Blank lines and '#' comments are skipped, a `[name]` line links a new section at the tail
 * and makes it current, and a `key=value` line adds a pair to the current section; the first
 * error ends the read and no configuration is returned.
 */
module Reader {
  import opened Chars
  import opened Results
  import opened Sequences
  import opened Grammar
  import opened Document
  import opened IniConfig

  /** Any character but the newline that ends an fgets line. */
  predicate NotNewline(c: char) { c != '\n' }

  /** The text of consecutive lines, as they sit in the file. */
  function Join(ls: seq<CString>): (text: CString)
  {
    if ls == [] then "" else ls[0] + Join(ls[1..])
  }

  /** A line that ends with its newline and holds no other. */
  predicate IsLine(l: string) {
    |l| > 0 && l[|l| - 1] == '\n' && All(l[..|l| - 1], NotNewline)
  }

  /**
   * The lines successive fgets calls return: each up to and including its newline; the
   * last one may lack it when the file does not end with a newline.
   */
  function SplitLines(text: CString): (ls: seq<CString>)
    ensures Join(ls) == text
    ensures forall i :: 0 <= i < |ls| ==> ls[i] != ""
    ensures forall i :: 0 <= i < |ls| - 1 ==> IsLine(ls[i])
    ensures ls != [] ==> All(ls[|ls| - 1][..|ls[|ls| - 1]| - 1], NotNewline)
    decreases |text|
  {
    if text == "" then []
    else
      var j := Span(text, 0, NotNewline);
      if j == |text| then
        LastLineOnly(text);
        [text]
      else
        var first, rest := Slice(text, 0, j + 1), SplitLines(Slice(text, j + 1, |text|));
        FirstLine(text, j);
        ConsLines(first, rest);
        [first] + rest
  }

  /** Text without a newline is a last line with no inner newline. */
  lemma LastLineOnly(text: CString)
    requires text != "" && Span(text, 0, NotNewline) == |text|
    ensures All(text[..|text| - 1], NotNewline)
  {
    SpanAll(text, 0, NotNewline);
    assert text[..|text| - 1] == text[0..|text|][..|text| - 1];
  }

  /** Text up to its first newline is a whole line, and the rest follows it. */
  lemma FirstLine(text: CString, j: nat)
    requires j == Span(text, 0, NotNewline) && j < |text|
    ensures IsLine(text[0..j + 1])
    ensures text == text[0..j + 1] + text[j + 1..|text|]
  {
    SpanAll(text, 0, NotNewline);
    var first := text[0..j + 1];
    assert first[..j] == text[0..j];
  }

  /** Putting a whole line in front of split lines keeps them split lines. */
  lemma ConsLines(first: CString, rest: seq<CString>)
    requires IsLine(first)
    requires forall i :: 0 <= i < |rest| ==> rest[i] != ""
    requires forall i :: 0 <= i < |rest| - 1 ==> IsLine(rest[i])
    requires rest != [] ==> All(rest[|rest| - 1][..|rest[|rest| - 1]| - 1], NotNewline)
    ensures var ls := [first] + rest; forall i :: 0 <= i < |ls| ==> ls[i] != ""
    ensures var ls := [first] + rest; forall i :: 0 <= i < |ls| - 1 ==> IsLine(ls[i])
    ensures var ls := [first] + rest; All(ls[|ls| - 1][..|ls[|ls| - 1]| - 1], NotNewline)
  {
    var ls := [first] + rest;
    assert forall i :: 1 <= i < |ls| ==> ls[i] == rest[i - 1];
    assert ls[|ls| - 1] == if rest == [] then first else rest[|rest| - 1];
  }

  /** Joining two runs of lines. */
  lemma {:induction false} JoinAppend(a: seq<CString>, b: seq<CString>)
    ensures Join(a + b) == Join(a) + Join(b)
    decreases |a|
  {
    if a == [] {
      assert a + b == b;
    } else {
      assert (a + b)[0] == a[0];
      assert (a + b)[1..] == a[1..] + b;
      JoinAppend(a[1..], b);
    }
  }

  /** Splitting the text of whole lines gives the lines back. */
  lemma {:induction false} SplitJoin(ls: seq<CString>)
    requires forall i :: 0 <= i < |ls| ==> IsLine(ls[i])
    ensures SplitLines(Join(ls)) == ls
    decreases |ls|
  {
    if ls != [] {
      var l, rest := ls[0], Join(ls[1..]);
      var n := |l| - 1;
      assert IsLine(l);
      assert l + rest == l[..n] + ("\n" + rest) by {
        assert l == l[..n] + "\n";
      }
      SpanPiece(l[..n], "\n" + rest, NotNewline);
      var text := Join(ls);
      assert text[..n + 1] == l;
      assert text[n + 1..] == rest;
      SplitJoin(ls[1..]);
    }
  }

  /** The header branch of the read loop: the section text names is linked at the tail. */
  function ReadHeaderInto(doc: Doc, text: CString): (r: Result<Doc>)
    ensures r.Ok? <==> ParseSectionName(text).Ok?
    ensures r.Err? ==> r.error == EBADMSG
    ensures r.Ok? ==> r.value == doc + [SectionData(ParseSectionName(text).value, [])]
    ensures r.Ok? ==> |r.value| == |doc| + 1 && r.value[..|doc|] == doc && r.value[|doc|].entries == []
  {
    match ParseSectionName(text)
    case Err(e) => Err(e)
    case Ok(name) => AddSectionTo(doc, name)
  }

  /**
   * The key/value branch of the read loop: with no current section the line is rejected;
   * else the pair text holds is added to the current section, the last one.
   */
  function ReadEntryInto(doc: Doc, text: CString): (r: Result<Doc>)
    ensures doc == [] ==> r == Err(EBADMSG)
    ensures ParseKeyValue(text).Err? ==> r == Err(EBADMSG)
    ensures doc != [] && ParseKeyValue(text).Ok? ==>
      var last, pair := doc[|doc| - 1], ParseKeyValue(text).value;
      r == if HasKey(last.entries, pair.0) then Err(EEXIST)
        else Ok(doc[..|doc| - 1] + [SectionData(last.name, last.entries + [KeyValue(pair.0, pair.1)])])
    ensures r.Ok? ==> |r.value| == |doc| && r.value[..|doc| - 1] == doc[..|doc| - 1]
    ensures r.Ok? ==> r.value[|doc| - 1].name == doc[|doc| - 1].name
  {
    if doc == [] then Err(EBADMSG)
    else
      match ParseKeyValue(text)
      case Err(e) => Err(e)
      case Ok((key, value)) =>
        var last := doc[|doc| - 1];
        match AddKeyTo(last.entries, key, value)
        case Err(e) => Err(e)
        case Ok(entries) => Ok(doc[..|doc| - 1] + [SectionData(last.name, entries)])
  }

  /**
   * One pass of the read loop on the document read so far: skip the leading whitespace;
   * ignore an empty line or a comment; read a header when the line starts with '['; else
   * read a pair.
   */
  function ReadLineInto(doc: Doc, line: CString): (r: Result<Doc>)
    ensures r.Ok? ==> |doc| <= |r.value| <= |doc| + 1
    ensures r.Ok? && doc != [] ==> r.value[..|doc| - 1] == doc[..|doc| - 1]
    ensures r.Ok? && doc != [] ==> r.value[|doc| - 1].name == doc[|doc| - 1].name
  {
    var i := Span(line, 0, IsSpace);
    if i == |line| || line[i] == '#' then Ok(doc)
    else if line[i] == '[' then ReadHeaderInto(doc, Slice(line, i, |line|))
    else ReadEntryInto(doc, Slice(line, i, |line|))
  }

  /** The read loop over lines, started from the state start; an error is never recovered from. */
  function ReadFrom(start: Result<Doc>, lines: seq<CString>): (r: Result<Doc>)
    ensures start.Err? ==> r == start
    decreases |lines|
  {
    if lines == [] then start
    else
      match ReadFrom(start, lines[..|lines| - 1])
      case Err(e) => Err(e)
      case Ok(doc) => ReadLineInto(doc, lines[|lines| - 1])
  }

  /**
   * ini_cfg_read on the lines of a file: the document read, or the first error. Whatever it
   * accepts is well formed: letter-only names, alphanumeric keys unique in their section,
   * values without blanks.
   */
  function ReadDoc(lines: seq<CString>): (r: Result<Doc>)
    ensures r.Ok? ==> WellFormed(r.value)
  {
    ReadFromWellFormed(Ok([]), lines);
    ReadFrom(Ok([]), lines)
  }

  /** Reading a + b is reading b from where reading a stopped. */
  lemma {:induction false} ReadFromAppend(start: Result<Doc>, a: seq<CString>, b: seq<CString>)
    ensures ReadFrom(start, a + b) == ReadFrom(ReadFrom(start, a), b)
    decreases |b|
  {
    if b == [] {
      assert a + b == a;
    } else {
      var n := |b| - 1;
      assert (a + b)[..|a + b| - 1] == a + b[..n];
      ReadFromAppend(start, a, b[..n]);
    }
  }

  /** One more line: how the read loop advances. */
  lemma ReadDocSnoc(lines: seq<CString>, line: CString)
    requires ReadDoc(lines).Ok?
    ensures ReadDoc(lines + [line]) == ReadLineInto(ReadDoc(lines).value, line)
  {
    assert (lines + [line])[..|lines|] == lines;
  }

  /** Once a prefix of the lines fails, the read fails with the same error. */
  lemma ReadDocStops(lines: seq<CString>, i: nat)
    requires i <= |lines| && ReadDoc(lines[..i]).Err?
    ensures ReadDoc(lines) == ReadDoc(lines[..i])
  {
    assert lines == lines[..i] + lines[i..];
    ReadFromAppend(Ok([]), lines[..i], lines[i..]);
  }

  /** An empty line, a line of blanks or a comment leaves the document as it is. */
  lemma SkippedLine(doc: Doc, line: CString)
    requires All(line, IsSpace) || (Span(line, 0, IsSpace) < |line| && line[Span(line, 0, IsSpace)] == '#')
    ensures ReadLineInto(doc, line) == Ok(doc)
  {
    if All(line, IsSpace) {
      SpanWhole(line, IsSpace);
    }
  }

  /**
   * A line whose first non-blank is '[' is read as a header: a new empty section named as
   * ini_cfg_parse_section_name reads the whole line, or EBADMSG when it rejects it.
   */
  lemma HeaderLineRead(doc: Doc, line: CString)
    requires Span(line, 0, IsSpace) < |line| && line[Span(line, 0, IsSpace)] == '['
    ensures ParseSectionName(line).Ok? ==>
      ReadLineInto(doc, line) == Ok(doc + [SectionData(ParseSectionName(line).value, [])])
    ensures ParseSectionName(line).Err? ==> ReadLineInto(doc, line) == Err(EBADMSG)
  {
    HeaderFromFirstNonBlank(line, Span(line, 0, IsSpace));
  }

  /**
   * A line whose first non-blank is neither '#' nor '[' is read as a pair: EBADMSG before the
   * first header or when ini_cfg_parse_key_value rejects the whole line, EEXIST when the
   * current section holds the key, else the pair is added to the current section.
   */
  lemma EntryLineRead(doc: Doc, line: CString)
    requires Span(line, 0, IsSpace) < |line|
    requires line[Span(line, 0, IsSpace)] != '#' && line[Span(line, 0, IsSpace)] != '['
    ensures doc == [] || ParseKeyValue(line).Err? ==> ReadLineInto(doc, line) == Err(EBADMSG)
    ensures doc != [] && ParseKeyValue(line).Ok? ==>
      var last, pair := doc[|doc| - 1], ParseKeyValue(line).value;
      ReadLineInto(doc, line) ==
        if HasKey(last.entries, pair.0) then Err(EEXIST)
        else Ok(doc[..|doc| - 1] + [SectionData(last.name, last.entries + [KeyValue(pair.0, pair.1)])])
  {
    EntryFromFirstNonBlank(line, Span(line, 0, IsSpace));
  }

  /** Every line of the header grammar is read as a new empty section with its name. */
  lemma HeaderGrammarRead(doc: Doc, a: string, b: string, name: string, c: string, d: string)
    requires All(a, IsSpace) && All(b, IsSpace) && All(c, IsSpace) && All(d, IsSpace)
    requires IsName(name)
    ensures '\0' !in HeaderLine(a, b, name, c, d)
    ensures ReadLineInto(doc, HeaderLine(a, b, name, c, d)) == Ok(doc + [SectionData(name, [])])
  {
    HeaderAccepted(a, b, name, c, d);
    var line: CString := HeaderLine(a, b, name, c, d);
    HeaderSpan0(a, b, name, c, d, line);
    HeaderSlices(a, b, name, c, d, line);
    HeaderLineRead(doc, line);
  }

  /** Every line of the key/value grammar after a header is read as its pair, unless the key is taken. */
  lemma EntryGrammarRead(doc: Doc, a: string, key: string, b: string, c: string, value: string, d: string)
    requires All(a, IsSpace) && All(b, IsSpace) && All(c, IsSpace) && All(d, IsSpace)
    requires IsKey(key) && IsValue(value) && doc != []
    ensures '\0' !in EntryLine(a, key, b, c, value, d)
    ensures var last := doc[|doc| - 1];
      ReadLineInto(doc, EntryLine(a, key, b, c, value, d)) ==
        if HasKey(last.entries, key) then Err(EEXIST)
        else Ok(doc[..|doc| - 1] + [SectionData(last.name, last.entries + [KeyValue(key, value)])])
  {
    EntryAccepted(a, key, b, c, value, d);
    var line: CString := EntryLine(a, key, b, c, value, d);
    EntrySpan0(a, key, b, c, value, d, line);
    EntrySlices(a, key, b, c, value, d, line);
    EntryLineRead(doc, line);
  }

  /** A header keeps the document well formed: the name it links has the grammar's form. */
  lemma ReadHeaderKeepsWellFormed(doc: Doc, text: CString)
    requires WellFormed(doc)
    ensures ReadHeaderInto(doc, text).Ok? ==> WellFormed(ReadHeaderInto(doc, text).value)
  {
    if ParseSectionName(text).Ok? {
      var _, _, _, _ := HeaderParsed(text);
      var r := ReadHeaderInto(doc, text).value;
      assert WellFormedSection(r[|doc|]);
    }
  }

  /** A pair keeps the document well formed: its key and value have the grammar's form and the keys stay unique. */
  lemma ReadEntryKeepsWellFormed(doc: Doc, text: CString)
    requires WellFormed(doc)
    ensures ReadEntryInto(doc, text).Ok? ==> WellFormed(ReadEntryInto(doc, text).value)
  {
    if doc != [] && ParseKeyValue(text).Ok? {
      var _, _, _, _ := EntryParsed(text);
      var (key, value) := ParseKeyValue(text).value;
      var last := doc[|doc| - 1];
      if !HasKey(last.entries, key) {
        AddKeyKeepsUnique(last.entries, key, value);
        var r := ReadEntryInto(doc, text).value;
        assert r[|doc| - 1] == SectionData(last.name, last.entries + [KeyValue(key, value)]);
        assert WellFormedSection(r[|doc| - 1]);
      }
    }
  }

  /** One line keeps the document well formed. */
  lemma ReadLineKeepsWellFormed(doc: Doc, line: CString)
    requires WellFormed(doc)
    ensures ReadLineInto(doc, line).Ok? ==> WellFormed(ReadLineInto(doc, line).value)
  {
    var i := Span(line, 0, IsSpace);
    if i < |line| && line[i] != '#' {
      ReadHeaderKeepsWellFormed(doc, Slice(line, i, |line|));
      ReadEntryKeepsWellFormed(doc, Slice(line, i, |line|));
    }
  }

  /** Read from a well-formed document, the read loop only produces well-formed documents. */
  lemma {:induction false} ReadFromWellFormed(start: Result<Doc>, lines: seq<CString>)
    requires start.Ok? ==> WellFormed(start.value)
    ensures ReadFrom(start, lines).Ok? ==> WellFormed(ReadFrom(start, lines).value)
    decreases |lines|
  {
    if lines != [] {
      var n := |lines| - 1;
      ReadFromWellFormed(start, lines[..n]);
      if ReadFrom(start, lines[..n]).Ok? {
        ReadLineKeepsWellFormed(ReadFrom(start, lines[..n]).value, lines[n]);
      }
    }
  }

  /**
   * ini_cfg_read: allocate a configuration holding the path, then run the loop over the lines;
   * on the first error free everything and return no configuration.
   */
  method Read(path: CString, lines: seq<CString>) returns (st: Outcome, config: Config?)
    ensures path == "" ==> st == Fail(EINVAL)
    ensures path != "" ==> st == StatusOf(ReadDoc(lines))
    ensures st.Fail? ==> config == null
    ensures st.Pass? ==> config != null && fresh(config) && config.path == path && config.Valid()
    ensures st.Pass? ==> config.Contents() == ReadDoc(lines).value
  {
    if path == "" {
      return Fail(EINVAL), null;
    }
    config := new Config(path);
    var section: Section? := null;
    var i := 0;
    while i < |lines|
      invariant 0 <= i <= |lines|
      invariant fresh(config) && config.path == path && config.Valid()
      invariant section != null ==> fresh(section)
      invariant Current(config, section)
      invariant ReadDoc(lines[..i]).Ok? && config.Contents() == ReadDoc(lines[..i]).value
    {
      assert lines[..i + 1] == lines[..i] + [lines[i]];
      st, section := ReadLine(config, section, lines[i], lines[..i]);
      if st.Fail? {
        ReadDocStops(lines, i + 1);
        return st, null;
      }
      i := i + 1;
    }
    assert lines[..i] == lines;
    st := Pass;
  }

  /** section is the current section of config: the last one linked, or null before the first header. */
  ghost predicate Current(config: Config, section: Section?)
    reads config
  {
    (section == null <==> config.sections == []) &&
    (section != null ==> section == config.sections[|config.sections| - 1])
  }

  /** One pass of the loop of ini_cfg_read over the line line, with section the current section. */
  method ReadLine(config: Config, section: Section?, line: CString, ghost before: seq<CString>)
    returns (st: Outcome, current: Section?)
    requires config.Valid() && Current(config, section)
    requires ReadDoc(before).Ok? && config.Contents() == ReadDoc(before).value
    modifies config, section
    ensures config.Valid()
    ensures current != null ==> current == section || fresh(current)
    ensures st == StatusOf(ReadDoc(before + [line]))
    ensures st.Pass? ==> Current(config, current) && config.Contents() == ReadDoc(before + [line]).value
  {
    ReadDocSnoc(before, line);
    var cursor := Skip(line, 0, IsSpace);
    if cursor == |line| || line[cursor] == '#' {
      // an empty line or a comment
      return Pass, section;
    }
    if line[cursor] == '[' {
      st, current := ReadHeader(config, Slice(line, cursor, |line|));
    } else if section == null {
      return Fail(EBADMSG), null;
    } else {
      st := ReadEntry(config, section, Slice(line, cursor, |line|));
      current := section;
    }
  }

  /** The header branch: parse the name and link a new section, which becomes the current one. */
  method ReadHeader(config: Config, text: CString) returns (st: Outcome, current: Section?)
    requires config.Valid()
    modifies config
    ensures config.Valid()
    ensures current != null ==> fresh(current)
    ensures st == StatusOf(ReadHeaderInto(old(config.Contents()), text))
    ensures st.Pass? ==> Current(config, current) && config.Contents() == ReadHeaderInto(old(config.Contents()), text).value
  {
    var name := ScanSectionName(text);
    if name.Err? {
      return Fail(name.error), null;
    }
    st, current := config.AddSection(name.value);
  }

  /** The key/value branch with a current section: parse the pair and add it to that section. */
  method ReadEntry(config: Config, section: Section, text: CString) returns (st: Outcome)
    requires config.Valid() && Current(config, section)
    modifies section
    ensures config.Valid() && Current(config, section)
    ensures st == StatusOf(ReadEntryInto(old(config.Contents()), text))
    ensures st.Pass? ==> config.Contents() == ReadEntryInto(old(config.Contents()), text).value
  {
    ghost var doc := config.Contents();
    var pair := ScanKeyValue(text);
    if pair.Err? {
      return Fail(pair.error);
    }
    assert doc[|doc| - 1] == section.Data();
    label Before:
    st := section.AddKey(pair.value.0, pair.value.1);
    forall j | 0 <= j < |config.sections| - 1 ensures doc[j] == config.sections[j].Data() {
      assert config.sections[j] != section;
      assert doc[j] == old@Before(config.sections[j].Data());
    }
    CurrentSectionUpdated(config.sections, doc, section);
  }

  /** After a pair is added to the last section, the snapshot differs from before only in that section. */
  lemma CurrentSectionUpdated(ss: seq<Section>, before: Doc, last: Section)
    requires ss != [] && last == ss[|ss| - 1] && Distinct(ss) && |before| == |ss|
    requires forall i :: 0 <= i < |ss| - 1 ==> before[i] == ss[i].Data()
    ensures Snapshot(ss) == before[..|ss| - 1] + [last.Data()]
  {
  }
}
