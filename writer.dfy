/**
 * ini_cfg_save: the text written for a configuration, and the temporary path it is written
 * to before that file is renamed over the target. Each section is written as a blank line
 * and its `[name]` header, then one `key=value` line per pair, all in list order.
 */
module Writer {
  import opened Chars
  import opened Results
  import opened Document
  import opened IniConfig
  import opened Reader

  /** The suffix of the temporary file ini_cfg_save writes first. */
  const TempSuffix: CString := ".new"

  /** sprintf("%s%s", path, ".new"): the path of the temporary file. */
  function TempPath(path: CString): (r: CString)
    ensures |r| == |path| + |TempSuffix|
    ensures r[..|path|] == path && r[|path|..] == TempSuffix
  {
    path + TempSuffix
  }

  /** fprintf("\n[%s]\n", name): a blank line and the header. */
  function HeaderText(name: CString): CString {
    "\n[" + name + "]\n"
  }

  /** fprintf("%s=%s\n", key, value): one pair. */
  function PairText(kv: KeyValue): CString {
    kv.key + "=" + kv.value + "\n"
  }

  /** The pairs of a section, one line each. */
  function EntriesText(entries: seq<KeyValue>): CString
    decreases |entries|
  {
    if entries == [] then "" else EntriesText(entries[..|entries| - 1]) + PairText(entries[|entries| - 1])
  }

  /** One section: its header, then its pairs. */
  function SectionText(s: SectionData): CString {
    HeaderText(s.name) + EntriesText(s.entries)
  }

  /** The whole file ini_cfg_save writes, section after section. */
  function Serialize(doc: Doc): CString
    decreases |doc|
  {
    if doc == [] then "" else Serialize(doc[..|doc| - 1]) + SectionText(doc[|doc| - 1])
  }

  /** The lines the pairs of a section are written as. */
  function EntryLines(entries: seq<KeyValue>): (ls: seq<CString>)
    ensures |ls| == |entries|
    ensures forall j :: 0 <= j < |entries| ==> ls[j] == PairText(entries[j])
    decreases |entries|
  {
    if entries == [] then [] else EntryLines(entries[..|entries| - 1]) + [PairText(entries[|entries| - 1])]
  }

  /** The lines a section is written as: a blank line, the header, the pairs. */
  function SectionLines(s: SectionData): seq<CString> {
    ["\n", "[" + s.name + "]\n"] + EntryLines(s.entries)
  }

  /** The lines the whole file is written as. */
  function DocLines(doc: Doc): seq<CString>
    decreases |doc|
  {
    if doc == [] then [] else DocLines(doc[..|doc| - 1]) + SectionLines(doc[|doc| - 1])
  }

  /** The pairs' text is the text of their lines. */
  lemma {:induction false} EntriesTextLines(entries: seq<KeyValue>)
    ensures EntriesText(entries) == Join(EntryLines(entries))
    decreases |entries|
  {
    if entries != [] {
      var n := |entries| - 1;
      EntriesTextLines(entries[..n]);
      JoinAppend(EntryLines(entries[..n]), [PairText(entries[n])]);
      assert Join([PairText(entries[n])]) == PairText(entries[n]) + Join([]);
    }
  }

  /** The file's text is the text of its lines. */
  lemma {:induction false} SerializeLines(doc: Doc)
    ensures Serialize(doc) == Join(DocLines(doc))
    decreases |doc|
  {
    if doc != [] {
      var n := |doc| - 1;
      SerializeLines(doc[..n]);
      JoinAppend(DocLines(doc[..n]), SectionLines(doc[n]));
      SectionTextLines(doc[n]);
    }
  }

  /** A section's text is the text of its lines. */
  lemma SectionTextLines(s: SectionData)
    ensures SectionText(s) == Join(SectionLines(s))
  {
    var header: CString := "[" + s.name + "]\n";
    JoinAppend(["\n", header], EntryLines(s.entries));
    EntriesTextLines(s.entries);
    assert ["\n", header][1..] == [header];
    assert Join(["\n", header]) == "\n" + (header + Join([]));
    assert HeaderText(s.name) == "\n" + header;
  }

  /** One more pair: how the inner write loop advances. */
  lemma EntriesSnoc(entries: seq<KeyValue>, j: nat)
    requires j < |entries|
    ensures EntriesText(entries[..j + 1]) == EntriesText(entries[..j]) + PairText(entries[j])
  {
    assert entries[..j + 1][..j] == entries[..j];
  }

  /** One more section: how the outer write loop advances. */
  lemma SerializeSnoc(doc: Doc, s: SectionData)
    ensures Serialize(doc + [s]) == Serialize(doc) + (HeaderText(s.name) + EntriesText(s.entries))
  {
    assert (doc + [s])[..|doc|] == doc;
  }

  /** One more section node: how the outer write loop advances over the list. */
  lemma SaveStep(ss: seq<Section>, i: nat)
    requires i < |ss|
    ensures Serialize(Snapshot(ss[..i + 1])) ==
      Serialize(Snapshot(ss[..i])) + (HeaderText(ss[i].name) + EntriesText(ss[i].entries))
  {
    var before, last := Snapshot(ss[..i]), ss[i].Data();
    assert ss[..i + 1] == ss[..i] + [ss[i]];
    SnapshotAppend(ss[..i], [ss[i]]);
    assert Snapshot([ss[i]]) == [last];
    SerializeSnoc(before, last);
  }

  /**
   * ini_cfg_save: EINVAL without a path or a configuration; else the temporary path and the
   * text the loops over the sections and their pairs write to it.
   */
  method Save(path: CString, config: Config?) returns (st: Outcome, tmpPath: CString, text: CString)
    ensures path == "" || config == null ==> st == Fail(EINVAL) && tmpPath == "" && text == ""
    ensures path != "" && config != null ==>
      st == Pass && tmpPath == TempPath(path) && text == Serialize(config.Contents())
  {
    if path == "" || config == null {
      return Fail(EINVAL), "", "";
    }
    tmpPath := path + TempSuffix;
    text := WriteSections(config.sections);
    st := Pass;
  }

  /** The loop over the sections of ini_cfg_save: each section's text, in list order. */
  method WriteSections(ss: seq<Section>) returns (text: CString)
    ensures text == Serialize(Snapshot(ss))
  {
    text := "";
    var i := 0;
    while i < |ss|
      invariant 0 <= i <= |ss|
      invariant text == Serialize(Snapshot(ss[..i]))
    {
      var section := ss[i];
      text := WriteSection(text, section);
      SaveStep(ss, i);
      i := i + 1;
    }
    assert ss[..i] == ss;
  }

  /** The body of the loop over the sections: the header, then the loop over the pairs. */
  method WriteSection(text: CString, section: Section) returns (out: CString)
    ensures out == text + (HeaderText(section.name) + EntriesText(section.entries))
  {
    out := text + HeaderText(section.name);
    var entries := section.entries;
    var j := 0;
    while j < |entries|
      invariant 0 <= j <= |entries|
      invariant out == text + HeaderText(section.name) + EntriesText(entries[..j])
    {
      EntriesSnoc(entries, j);
      out := out + PairText(entries[j]);
      j := j + 1;
    }
    assert entries[..j] == entries;
  }
}
