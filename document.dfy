/**
 * The document the library holds in memory, as values: an ordered list of sections, each an
 * ordered list of key/value pairs. The functions here state what the in-place operations of
 * iniparser.c compute on a section's pairs and on the list of sections; the classes in
 * IniConfig are proved to perform them.
 */
module Document {
  import opened Chars
  import opened Results
  import opened Sequences

  /** A KEYVALUE_INI node without its link: the key and the value it owns. */
  datatype KeyValue = KeyValue(key: CString, value: CString)

  /** The contents of a SECTION_INI node: its name and its pairs in list order. */
  datatype SectionData = SectionData(name: CString, entries: seq<KeyValue>)

  /** The sections of a CONFIG_INI in list order. */
  type Doc = seq<SectionData>

  /** Some pair of the section has this key. */
  predicate HasKey(entries: seq<KeyValue>, key: CString) {
    exists j :: 0 <= j < |entries| && entries[j].key == key
  }

  /** No two pairs of the section share a key. */
  predicate UniqueKeys(entries: seq<KeyValue>) {
    forall i, j :: 0 <= i < j < |entries| ==> entries[i].key != entries[j].key
  }

  /** The position of the first pair whose key is key. */
  function FirstKey(entries: seq<KeyValue>, key: CString): (r: Option<nat>)
    ensures r.Some? ==> r.value < |entries| && entries[r.value].key == key
    ensures r.Some? ==> forall j :: 0 <= j < r.value ==> entries[j].key != key
    ensures r.None? <==> !HasKey(entries, key)
  {
    if entries == [] then None
    else if entries[0].key == key then Some(0)
    else
      match FirstKey(entries[1..], key)
      case None => None
      case Some(i) => Some(i + 1)
  }

  /** ini_cfg_find_key: the first pair whose key is key; nothing for an empty key. */
  function KeyIndex(entries: seq<KeyValue>, key: CString): (r: Option<nat>)
    ensures r.Some? ==> key != "" && r.value < |entries| && entries[r.value].key == key
    ensures r.Some? ==> forall j :: 0 <= j < r.value ==> entries[j].key != key
    ensures r.None? <==> key == "" || !HasKey(entries, key)
  {
    if key == "" then None else FirstKey(entries, key)
  }

  /** ini_cfg_add_key on a section's pairs: the new pairs, or the error returned. */
  function AddKeyTo(entries: seq<KeyValue>, key: CString, value: CString): (r: Result<seq<KeyValue>>)
    ensures r == Err(EINVAL) <==> key == "" || value == ""
    ensures r == Err(EEXIST) <==> key != "" && value != "" && HasKey(entries, key)
    ensures r.Ok? <==> key != "" && value != "" && !HasKey(entries, key)
    ensures r.Ok? ==> r.value == entries + [KeyValue(key, value)]
  {
    if key == "" || value == "" then Err(EINVAL)
    else if KeyIndex(entries, key).Some? then Err(EEXIST)
    else Ok(entries + [KeyValue(key, value)])
  }

  /** ini_cfg_set_value on a section's pairs: the new pairs, or the error returned. */
  function SetValueIn(entries: seq<KeyValue>, key: CString, value: CString): (r: Result<seq<KeyValue>>)
    ensures r == Err(EINVAL) <==> key == "" || value == ""
    ensures r == Err(ENOENT) <==> key != "" && value != "" && !HasKey(entries, key)
    ensures r.Ok? <==> key != "" && value != "" && HasKey(entries, key)
    ensures r.Ok? ==> |r.value| == |entries|
    ensures r.Ok? ==> var i := KeyIndex(entries, key).value;
      r.value[i] == KeyValue(key, value) &&
      (forall j :: 0 <= j < |entries| && j != i ==> r.value[j] == entries[j])
  {
    if key == "" || value == "" then Err(EINVAL)
    else
      match KeyIndex(entries, key)
      case None => Err(ENOENT)
      case Some(i) => Ok(entries[i := KeyValue(entries[i].key, value)])
  }

  /** The pairs ini_cfg_delete_key keeps: those whose key differs from key. */
  function KeyIsNot(key: CString): KeyValue -> bool {
    (kv: KeyValue) => kv.key != key
  }

  /** ini_cfg_delete_key on a section's pairs, with every match unlinked. */
  function DeleteKeyFrom(entries: seq<KeyValue>, key: CString): (r: Result<seq<KeyValue>>)
    ensures r == Err(EINVAL) <==> key == ""
    ensures r.Ok? ==> forall kv :: kv in r.value <==> kv in entries && kv.key != key
  {
    if key == "" then Err(EINVAL)
    else
      var kept := Filter(entries, KeyIsNot(key));
      assert forall kv :: kv in kept <==> kv in entries && kv.key != key by {
        forall kv ensures kv in kept <==> kv in entries && kv.key != key {
          FilterMembers(entries, KeyIsNot(key), kv);
        }
      }
      Ok(kept)
  }

  /** ini_cfg_add_section on the list of sections: one new empty section at the end. */
  function AddSectionTo(doc: Doc, name: CString): (r: Result<Doc>)
    ensures r == Err(EINVAL) <==> name == ""
    ensures r.Ok? <==> name != ""
    ensures r.Ok? ==> |r.value| == |doc| + 1 && r.value[..|doc|] == doc
    ensures r.Ok? ==> r.value[|doc|] == SectionData(name, [])
  {
    if name == "" then Err(EINVAL) else Ok(doc + [SectionData(name, [])])
  }

  /** The sections ini_cfg_find_sections collects: those named name. */
  function SectionNamed(name: CString): SectionData -> bool {
    (s: SectionData) => s.name == name
  }

  /** The sections ini_cfg_delete_sections keeps: those with another name. */
  function SectionNotNamed(name: CString): SectionData -> bool {
    (s: SectionData) => s.name != name
  }

  /** ini_cfg_find_sections on the list of sections: every section named name, in list order. */
  function FindSectionsIn(doc: Doc, name: CString): (r: Result<Doc>)
    ensures r == Err(EINVAL) <==> name == ""
    ensures r.Ok? <==> name != ""
    ensures r.Ok? ==> forall s :: s in r.value <==> s in doc && s.name == name
  {
    if name == "" then Err(EINVAL)
    else
      var found := Filter(doc, SectionNamed(name));
      assert forall s :: s in found <==> s in doc && s.name == name by {
        forall s ensures s in found <==> s in doc && s.name == name {
          FilterMembers(doc, SectionNamed(name), s);
        }
      }
      Ok(found)
  }

  /** ini_cfg_delete_sections on the list of sections, with every match unlinked. */
  function DeleteSectionsFrom(doc: Doc, name: CString): (r: Result<Doc>)
    ensures r == Err(EINVAL) <==> name == ""
    ensures r.Ok? <==> name != ""
    ensures r.Ok? ==> forall s :: s in r.value <==> s in doc && s.name != name
  {
    if name == "" then Err(EINVAL)
    else
      var kept := Filter(doc, SectionNotNamed(name));
      assert forall s :: s in kept <==> s in doc && s.name != name by {
        forall s ensures s in kept <==> s in doc && s.name != name {
          FilterMembers(doc, SectionNotNamed(name), s);
        }
      }
      Ok(kept)
  }

  /** A section whose name has the grammar's form and whose pairs can be written and read back. */
  predicate WellFormedSection(s: SectionData) {
    IsName(s.name) && UniqueKeys(s.entries) &&
    forall j :: 0 <= j < |s.entries| ==> IsKey(s.entries[j].key) && IsValue(s.entries[j].value)
  }

  /** Every section is well formed. Section names may repeat, as ini_cfg_add_section allows. */
  predicate WellFormed(doc: Doc) {
    forall i :: 0 <= i < |doc| ==> WellFormedSection(doc[i])
  }

  /** Adding a key keeps the keys of a section unique. */
  lemma AddKeyKeepsUnique(entries: seq<KeyValue>, key: CString, value: CString)
    requires UniqueKeys(entries) && AddKeyTo(entries, key, value).Ok?
    ensures UniqueKeys(AddKeyTo(entries, key, value).value)
  {
  }

  /** After a successful add, ini_cfg_find_key finds the new pair at the end. */
  lemma AddKeyThenFind(entries: seq<KeyValue>, key: CString, value: CString)
    requires AddKeyTo(entries, key, value).Ok?
    ensures var r := AddKeyTo(entries, key, value).value;
      KeyIndex(r, key) == Some(|entries|) && r[|entries|].value == value
  {
    var r := AddKeyTo(entries, key, value).value;
    assert r[|entries|].key == key;
  }

  /** Adding the same key twice fails the second time with EEXIST. */
  lemma AddKeyTwiceFails(entries: seq<KeyValue>, key: CString, value: CString, other: CString)
    requires AddKeyTo(entries, key, value).Ok? && other != ""
    ensures AddKeyTo(AddKeyTo(entries, key, value).value, key, other) == Err(EEXIST)
  {
    var r := AddKeyTo(entries, key, value).value;
    assert r[|entries|].key == key;
  }

  /** Setting a value keeps the keys unique, and the key is then found with the new value. */
  lemma SetValueThenFind(entries: seq<KeyValue>, key: CString, value: CString)
    requires SetValueIn(entries, key, value).Ok?
    ensures var r := SetValueIn(entries, key, value).value;
      KeyIndex(r, key) == KeyIndex(entries, key) &&
      r[KeyIndex(r, key).value].value == value &&
      (UniqueKeys(entries) ==> UniqueKeys(r))
  {
    var r, i := SetValueIn(entries, key, value).value, KeyIndex(entries, key).value;
    assert forall j :: 0 <= j < |entries| ==> r[j].key == entries[j].key;
    assert r[i].key == key;
  }

  /** Deleting keeps the order of the pairs that stay. */
  lemma DeleteKeyKeepsOrder(entries: seq<KeyValue>, key: CString)
    requires key != ""
    ensures DeleteKeyFrom(entries, key).Ok? && DeleteKeyFrom(entries, key).value == Filter(entries, KeyIsNot(key))
  {
  }

  /** Deleting an absent key changes nothing. */
  lemma DeleteKeyAbsent(entries: seq<KeyValue>, key: CString)
    requires key != "" && !HasKey(entries, key)
    ensures DeleteKeyFrom(entries, key) == Ok(entries)
  {
    FilterKeepsAll(entries, KeyIsNot(key));
  }

  /** With unique keys, deleting a present key removes exactly its one pair. */
  lemma DeleteKeyUnique(entries: seq<KeyValue>, key: CString)
    requires UniqueKeys(entries) && KeyIndex(entries, key).Some?
    ensures var i := KeyIndex(entries, key).value;
      DeleteKeyFrom(entries, key) == Ok(entries[..i] + entries[i + 1..])
  {
    var i := KeyIndex(entries, key).value;
    FilterDropsOne(entries, KeyIsNot(key), i);
  }

  /** After a delete the key is gone, and the remaining keys stay unique. */
  lemma DeleteKeyThenFind(entries: seq<KeyValue>, key: CString)
    requires DeleteKeyFrom(entries, key).Ok?
    ensures var r := DeleteKeyFrom(entries, key).value;
      KeyIndex(r, key) == None && (UniqueKeys(entries) ==> UniqueKeys(r))
  {
    var r := DeleteKeyFrom(entries, key).value;
    var idx := FilterPositions(entries, KeyIsNot(key));
    if UniqueKeys(entries) {
      forall i, j | 0 <= i < j < |r| ensures r[i].key != r[j].key {
        assert idx[i] < idx[j];
      }
    }
  }

  /** A new section is found after the ones already there; names may repeat. */
  lemma AddSectionThenFind(doc: Doc, name: CString)
    requires name != ""
    ensures FindSectionsIn(AddSectionTo(doc, name).value, name) ==
      Ok(FindSectionsIn(doc, name).value + [SectionData(name, [])])
  {
    FilterSnoc(doc, SectionData(name, []), SectionNamed(name));
  }

  /** Adding a section leaves what is found under another name unchanged. */
  lemma AddSectionKeepsOthers(doc: Doc, name: CString, other: CString)
    requires name != "" && other != name
    ensures FindSectionsIn(AddSectionTo(doc, name).value, other) == FindSectionsIn(doc, other)
  {
    FilterSnoc(doc, SectionData(name, []), SectionNamed(other));
    assert Filter(doc, SectionNamed(other)) + [] == Filter(doc, SectionNamed(other));
  }

  /** Finding keeps the order of the sections found, and finds every one of them. */
  lemma FindSectionsInOrder(doc: Doc, name: CString) returns (idx: seq<nat>)
    requires name != ""
    ensures var found := FindSectionsIn(doc, name).value;
      |idx| == |found| &&
      (forall k :: 0 <= k < |idx| ==> idx[k] < |doc| && found[k] == doc[idx[k]]) &&
      (forall k, l :: 0 <= k < l < |idx| ==> idx[k] < idx[l]) &&
      (forall i :: 0 <= i < |doc| ==> (doc[i].name == name <==> i in idx))
  {
    idx := FilterPositions(doc, SectionNamed(name));
  }

  /** After a delete no section of that name is found. */
  lemma DeleteSectionsThenFind(doc: Doc, name: CString)
    requires name != ""
    ensures FindSectionsIn(DeleteSectionsFrom(doc, name).value, name) == Ok([])
  {
    var kept := DeleteSectionsFrom(doc, name).value;
    forall i | 0 <= i < |kept| ensures !SectionNamed(name)(kept[i]) {
      assert kept[i] in kept;
    }
    FilterNone(kept, SectionNamed(name));
  }

  /** A delete leaves what is found under another name unchanged. */
  lemma DeleteSectionsKeepsOthers(doc: Doc, name: CString, other: CString)
    requires name != "" && other != "" && other != name
    ensures FindSectionsIn(DeleteSectionsFrom(doc, name).value, other) == FindSectionsIn(doc, other)
  {
    forall s | SectionNamed(other)(s) ensures SectionNotNamed(name)(s) { }
    FilterFilter(doc, SectionNotNamed(name), SectionNamed(other));
  }

  /** Deleting a name no section has changes nothing. */
  lemma DeleteSectionsAbsent(doc: Doc, name: CString)
    requires name != "" && forall i :: 0 <= i < |doc| ==> doc[i].name != name
    ensures DeleteSectionsFrom(doc, name) == Ok(doc)
  {
    FilterKeepsAll(doc, SectionNotNamed(name));
  }
}
