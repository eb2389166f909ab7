/**
 * What ini_cfg_save writes, the model's read of ini_cfg_read gives back: for every well-formed
 * document, the lines of the saved text fold back into the same document. The C read loop as
 * written does not get that far: after the last line of such a file fgets returns NULL and the
 * loop leaves through its error path, handing back no configuration; the model's read leaves
 * that end-of-file path out. A document whose names, keys or values fall outside the grammar
 * (which ini_cfg_add_section, ini_cfg_add_key and ini_cfg_set_value allow) need not survive.
 */
module RoundTrip {
  import opened Chars
  import opened Results
  import opened Grammar
  import opened Document
  import opened Reader
  import opened Writer

  /** The header line of a section, without the blank line before it. */
  function HeaderLineOf(name: CString): CString {
    "[" + name + "]\n"
  }

  /** The lines of a well-formed section each end with their only newline. */
  lemma SectionLinesAreLines(s: SectionData)
    requires WellFormedSection(s)
    ensures forall i :: 0 <= i < |SectionLines(s)| ==> IsLine(SectionLines(s)[i])
  {
    var h := HeaderLineOf(s.name);
    assert h[..|h| - 1] == "[" + s.name + "]";
    var ls := EntryLines(s.entries);
    forall j | 0 <= j < |ls| ensures IsLine(ls[j]) {
      var kv := s.entries[j];
      var l := PairText(kv);
      assert l[..|l| - 1] == kv.key + "=" + kv.value;
    }
  }

  /** The lines of a well-formed document each end with their only newline. */
  lemma {:induction false} DocLinesAreLines(doc: Doc)
    requires WellFormed(doc)
    ensures forall i :: 0 <= i < |DocLines(doc)| ==> IsLine(DocLines(doc)[i])
    decreases |doc|
  {
    if doc != [] {
      var n := |doc| - 1;
      DocLinesAreLines(doc[..n]);
      SectionLinesAreLines(doc[n]);
    }
  }

  /** A line that starts with neither whitespace nor '#' is dispatched on its first character. */
  lemma UnindentedLine(doc: Doc, line: CString)
    requires line != "" && !IsSpace(line[0]) && line[0] != '#'
    ensures ReadLineInto(doc, line) ==
      if line[0] == '[' then ReadHeaderInto(doc, line) else ReadEntryInto(doc, line)
  {
    assert Span(line, 0, IsSpace) == 0;
    assert Slice(line, 0, |line|) == line;
  }

  /** The header line of a well-formed name parses as that name. */
  lemma HeaderParses(name: CString)
    requires IsName(name)
    ensures ParseSectionName(HeaderLineOf(name)) == Ok(name)
  {
    HeaderAccepted("", "", name, "", "\n");
    assert HeaderLine("", "", name, "", "\n") == HeaderLineOf(name);
  }

  /** The line of a well-formed pair parses as that pair. */
  lemma PairParses(kv: KeyValue)
    requires IsKey(kv.key) && IsValue(kv.value)
    ensures ParseKeyValue(PairText(kv)) == Ok((kv.key, kv.value))
  {
    EntryAccepted("", kv.key, "", "", kv.value, "\n");
    assert EntryLine("", kv.key, "", "", kv.value, "\n") == PairText(kv);
  }

  /** The header line of a well-formed name reads as a new empty section. */
  lemma ReadHeaderBack(d: Doc, name: CString)
    requires IsName(name)
    ensures ReadLineInto(d, HeaderLineOf(name)) == Ok(d + [SectionData(name, [])])
  {
    UnindentedLine(d, HeaderLineOf(name));
    HeaderParses(name);
  }

  /** The line of a well-formed pair whose key is new adds it to the last section. */
  lemma ReadPairBack(d: Doc, name: CString, es: seq<KeyValue>, kv: KeyValue)
    requires IsKey(kv.key) && IsValue(kv.value) && !HasKey(es, kv.key)
    ensures ReadLineInto(d + [SectionData(name, es)], PairText(kv)) == Ok(d + [SectionData(name, es + [kv])])
  {
    var before := d + [SectionData(name, es)];
    assert PairText(kv)[0] == kv.key[0];
    UnindentedLine(before, PairText(kv));
    PairParses(kv);
    assert before[..|before| - 1] == d;
  }

  /** The blank line and the header of a section read as a new empty section. */
  lemma ReadHeaderLinesBack(d: Doc, name: CString)
    requires IsName(name)
    ensures ReadFrom(Ok(d), ["\n", HeaderLineOf(name)]) == Ok(d + [SectionData(name, [])])
  {
    var ls := ["\n", HeaderLineOf(name)];
    assert ls[..1] == ["\n"];
    assert ["\n"][..0] == [];
    SkippedLine(d, "\n");
    ReadHeaderBack(d, name);
  }

  /** The pair lines of a well-formed section add its pairs, one by one, to the new section. */
  lemma {:induction false} ReadPairsBack(d: Doc, s: SectionData, j: nat)
    requires WellFormedSection(s) && j <= |s.entries|
    ensures ReadFrom(Ok(d + [SectionData(s.name, [])]), EntryLines(s.entries[..j])) ==
      Ok(d + [SectionData(s.name, s.entries[..j])])
    decreases j
  {
    if j == 0 {
      assert s.entries[..0] == [];
    } else {
      var es := s.entries[..j];
      var kv := s.entries[j - 1];
      assert es[..j - 1] == s.entries[..j - 1];
      ReadPairsBack(d, s, j - 1);
      assert !HasKey(s.entries[..j - 1], kv.key) by {
        assert forall i :: 0 <= i < j - 1 ==> s.entries[i].key != s.entries[j - 1].key;
      }
      ReadPairBack(d, s.name, s.entries[..j - 1], kv);
      assert s.entries[..j - 1] + [kv] == es;
    }
  }

  /** The lines of a well-formed section append it to the document read so far. */
  lemma ReadSectionBack(d: Doc, s: SectionData)
    requires WellFormedSection(s)
    ensures ReadFrom(Ok(d), SectionLines(s)) == Ok(d + [s])
  {
    ReadFromAppend(Ok(d), ["\n", HeaderLineOf(s.name)], EntryLines(s.entries));
    ReadHeaderLinesBack(d, s.name);
    ReadPairsBack(d, s, |s.entries|);
    assert s.entries[..|s.entries|] == s.entries;
  }

  /** The lines of one more well-formed section, after those of a document read back, read back too. */
  lemma ReadNextSectionBack(prefix: Doc, s: SectionData)
    requires WellFormedSection(s) && ReadDoc(DocLines(prefix)) == Ok(prefix)
    ensures ReadDoc(DocLines(prefix + [s])) == Ok(prefix + [s])
  {
    assert (prefix + [s])[..|prefix|] == prefix;
    ReadFromAppend(Ok([]), DocLines(prefix), SectionLines(s));
    ReadSectionBack(prefix, s);
  }

  /** The lines of a well-formed document read back as that document. */
  lemma {:induction false} ReadDocLinesBack(doc: Doc)
    requires WellFormed(doc)
    ensures ReadDoc(DocLines(doc)) == Ok(doc)
    decreases |doc|
  {
    if doc != [] {
      var n := |doc| - 1;
      var prefix, last := doc[..n], doc[n];
      assert prefix + [last] == doc;
      assert WellFormed(prefix) by {
        forall i | 0 <= i < n ensures WellFormedSection(prefix[i]) {
          assert prefix[i] == doc[i];
        }
      }
      ReadDocLinesBack(prefix);
      ReadNextSectionBack(prefix, last);
    }
  }

  /** Saving a well-formed document and reading the file back gives the same document. */
  lemma SaveThenRead(doc: Doc)
    requires WellFormed(doc)
    ensures ReadDoc(SplitLines(Serialize(doc))) == Ok(doc)
  {
    SerializeLines(doc);
    DocLinesAreLines(doc);
    SplitJoin(DocLines(doc));
    ReadDocLinesBack(doc);
  }

  /** The header of a name with a blank inside does not parse. */
  lemma SpacedHeaderRejected()
    ensures ParseSectionName(HeaderLineOf("a b")) == Err(EBADMSG)
  {
    var h := HeaderLineOf("a b");
    assert Span(h, 0, IsSpace) == 0;
    assert Span(h, 1, IsSpace) == 1;
    assert Span(h, 2, IsAlpha) == 2;
    assert Span(h, 1, IsAlpha) == 2;
    assert Span(h, 3, IsSpace) == 3;
    assert Span(h, 2, IsSpace) == 3;
    HeaderRejectedClosing(h, 0, 1, 2, 3);
  }

  /** The lines saved for a section named "a b": a blank line and its header. */
  lemma SpacedNameLines()
    ensures SplitLines(Serialize([SectionData("a b", [])])) == ["\n", HeaderLineOf("a b")]
  {
    var doc := [SectionData("a b", [])];
    var h := HeaderLineOf("a b");
    assert DocLines(doc) == ["\n", h] by {
      assert doc[..0] == [];
    }
    SerializeLines(doc);
    assert h[..|h| - 1] == "[a b]";
    assert IsLine("\n") && IsLine(h);
    SplitJoin(["\n", h]);
  }

  /** A section named "a b", which ini_cfg_add_section accepts, is saved but not read back. */
  lemma SpacedNameNotReadBack()
    ensures ReadDoc(SplitLines(Serialize([SectionData("a b", [])]))) == Err(EBADMSG)
  {
    var h := HeaderLineOf("a b");
    SpacedNameLines();
    assert ["\n", h][..1] == ["\n"];
    assert ["\n"][..0] == [];
    SkippedLine([], "\n");
    UnindentedLine([], h);
    SpacedHeaderRejected();
  }
}
