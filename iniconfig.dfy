/**
 * The in-memory configuration of iniparser.c as mutable objects: a CONFIG_INI holding its
 * list of SECTION_INI nodes, each holding its list of KEYVALUE_INI pairs. The linked lists
 * are sequence fields that the methods reassign; every method is proved to leave the object
 * in the state the matching function of Document computes from the old state.
 */
module IniConfig {
  import opened Chars
  import opened Results
  import opened Sequences
  import opened Document

  /** A SECTION_INI node: a name fixed at creation and the pairs it owns, in list order. */
  class Section {
    const name: CString
    var entries: seq<KeyValue>

    /** A section as ini_cfg_add_section allocates it: named, with no pairs. */
    constructor (name: CString)
      ensures this.name == name && entries == []
    {
      this.name := name;
      entries := [];
    }

    /** The value this section holds now. */
    function Data(): SectionData
      reads this
    {
      SectionData(name, entries)
    }

    /** ini_cfg_find_key: a walk that stops at the first pair with the key. */
    method FindKey(key: CString) returns (r: Option<nat>)
      ensures r == KeyIndex(entries, key)
    {
      r := None;
      if key == "" {
        return;
      }
      var i := 0;
      while r.None? && i < |entries|
        invariant 0 <= i <= |entries|
        invariant r.None? ==> forall j :: 0 <= j < i ==> entries[j].key != key
        invariant r.Some? ==> r.value < i && entries[r.value].key == key
        invariant r.Some? ==> forall j :: 0 <= j < r.value ==> entries[j].key != key
      {
        if entries[i].key == key {
          r := Some(i);
        }
        i := i + 1;
      }
    }

    /** ini_cfg_add_key: append a new pair unless the key is empty, the value is empty or the key is present. */
    method AddKey(key: CString, value: CString) returns (st: Outcome)
      modifies this
      ensures st == StatusOf(AddKeyTo(old(entries), key, value))
      ensures entries == if st.Pass? then AddKeyTo(old(entries), key, value).value else old(entries)
    {
      if key == "" || value == "" {
        return Fail(EINVAL);
      }
      var found := FindKey(key);
      if found.Some? {
        return Fail(EEXIST);
      }
      entries := entries + [KeyValue(key, value)];
      st := Pass;
    }

    /** ini_cfg_set_value: replace the value of the first pair with the key. */
    method SetValue(key: CString, value: CString) returns (st: Outcome)
      modifies this
      ensures st == StatusOf(SetValueIn(old(entries), key, value))
      ensures entries == if st.Pass? then SetValueIn(old(entries), key, value).value else old(entries)
    {
      if key == "" || value == "" {
        return Fail(EINVAL);
      }
      var candidate := FindKey(key);
      if candidate.None? {
        return Fail(ENOENT);
      }
      var i := candidate.value;
      entries := entries[i := KeyValue(entries[i].key, value)];
      st := Pass;
    }

    /** ini_cfg_delete_key: a walk that unlinks every pair with the key. */
    method DeleteKey(key: CString) returns (st: Outcome)
      modifies this
      ensures st == StatusOf(DeleteKeyFrom(old(entries), key))
      ensures entries == if st.Pass? then DeleteKeyFrom(old(entries), key).value else old(entries)
    {
      if key == "" {
        return Fail(EINVAL);
      }
      var es := entries;
      var kept := [];
      var i := 0;
      while i < |es|
        invariant 0 <= i <= |es|
        invariant kept == Filter(es[..i], KeyIsNot(key))
      {
        assert es[..i + 1] == es[..i] + [es[i]];
        FilterSnoc(es[..i], es[i], KeyIsNot(key));
        if es[i].key != key {
          kept := kept + [es[i]];
        }
        i := i + 1;
      }
      assert es[..i] == es;
      DeleteKeyKeepsOrder(es, key);
      entries := kept;
      st := Pass;
    }
  }

  /** The values a list of sections holds now, in list order. */
  function Snapshot(ss: seq<Section>): (d: Doc)
    reads ss
    ensures |d| == |ss|
    ensures forall i :: 0 <= i < |ss| ==> d[i] == ss[i].Data()
  {
    if ss == [] then [] else Snapshot(ss[..|ss| - 1]) + [ss[|ss| - 1].Data()]
  }

  /** The nodes ini_cfg_find_sections collects: those named name. */
  function NameIs(name: CString): Section -> bool {
    (s: Section) => s.name == name
  }

  /** The nodes ini_cfg_delete_sections keeps: those with another name. */
  function NameIsNot(name: CString): Section -> bool {
    (s: Section) => s.name != name
  }

  /** Taking the snapshot of the named nodes is finding the named sections in the snapshot. */
  lemma {:induction false} SnapshotNamed(ss: seq<Section>, name: CString)
    ensures Snapshot(Filter(ss, NameIs(name))) == Filter(Snapshot(ss), SectionNamed(name))
    decreases |ss|
  {
    if ss != [] {
      var n := |ss| - 1;
      SnapshotNamed(ss[..n], name);
      SnapshotAppend(Filter(ss[..n], NameIs(name)), if ss[n].name == name then [ss[n]] else []);
      assert Snapshot(ss)[..n] == Snapshot(ss[..n]);
      assert Snapshot(ss) == Snapshot(ss)[..n] + [Snapshot(ss)[n]];
      FilterSnoc(Snapshot(ss)[..n], Snapshot(ss)[n], SectionNamed(name));
    }
  }

  /** Taking the snapshot of the nodes a delete keeps is deleting from the snapshot. */
  lemma {:induction false} SnapshotNotNamed(ss: seq<Section>, name: CString)
    ensures Snapshot(Filter(ss, NameIsNot(name))) == Filter(Snapshot(ss), SectionNotNamed(name))
    decreases |ss|
  {
    if ss != [] {
      var n := |ss| - 1;
      SnapshotNotNamed(ss[..n], name);
      SnapshotAppend(Filter(ss[..n], NameIsNot(name)), if ss[n].name != name then [ss[n]] else []);
      assert Snapshot(ss)[..n] == Snapshot(ss[..n]);
      assert Snapshot(ss) == Snapshot(ss)[..n] + [Snapshot(ss)[n]];
      FilterSnoc(Snapshot(ss)[..n], Snapshot(ss)[n], SectionNotNamed(name));
    }
  }

  /** The snapshot of two lists of nodes is the two snapshots. */
  lemma SnapshotAppend(xs: seq<Section>, ys: seq<Section>)
    ensures Snapshot(xs + ys) == Snapshot(xs) + Snapshot(ys)
  {
  }

  /** The first loop of ini_cfg_find_sections: how many nodes are named name. */
  method CountNamed(ss: seq<Section>, name: CString) returns (count: nat)
    ensures count == |Filter(ss, NameIs(name))|
  {
    count := 0;
    var i := 0;
    while i < |ss|
      invariant 0 <= i <= |ss|
      invariant count == |Filter(ss[..i], NameIs(name))|
    {
      assert ss[..i + 1] == ss[..i] + [ss[i]];
      FilterSnoc(ss[..i], ss[i], NameIs(name));
      if ss[i].name == name {
        count := count + 1;
      }
      i := i + 1;
    }
    assert ss[..i] == ss;
  }

  /** The second loop of ini_cfg_find_sections: the nodes named name, in list order. */
  method CollectNamed(ss: seq<Section>, name: CString) returns (found: seq<Section>)
    ensures found == Filter(ss, NameIs(name))
  {
    found := [];
    var i := 0;
    while i < |ss|
      invariant 0 <= i <= |ss|
      invariant found == Filter(ss[..i], NameIs(name))
    {
      assert ss[..i + 1] == ss[..i] + [ss[i]];
      FilterSnoc(ss[..i], ss[i], NameIs(name));
      if ss[i].name == name {
        found := found + [ss[i]];
      }
      i := i + 1;
    }
    assert ss[..i] == ss;
  }

  /** The walk of ini_cfg_delete_sections: the nodes it leaves linked, in list order. */
  method KeepOthers(ss: seq<Section>, name: CString) returns (kept: seq<Section>)
    ensures kept == Filter(ss, NameIsNot(name))
  {
    kept := [];
    var i := 0;
    while i < |ss|
      invariant 0 <= i <= |ss|
      invariant kept == Filter(ss[..i], NameIsNot(name))
    {
      assert ss[..i + 1] == ss[..i] + [ss[i]];
      FilterSnoc(ss[..i], ss[i], NameIsNot(name));
      if ss[i].name != name {
        kept := kept + [ss[i]];
      }
      i := i + 1;
    }
    assert ss[..i] == ss;
  }

  /** A CONFIG_INI: the path it was read from and its sections in list order. */
  class Config {
    const path: CString
    var sections: seq<Section>

    /** No node is linked twice. */
    ghost predicate Valid()
      reads this
    {
      Distinct(sections)
    }

    /** A configuration as ini_cfg_read allocates it: the path copied, no sections. */
    constructor (path: CString)
      ensures this.path == path && sections == [] && Valid()
    {
      this.path := path;
      sections := [];
    }

    /** The document this configuration holds now. */
    function Contents(): Doc
      reads this, sections
    {
      Snapshot(sections)
    }

    /** ini_cfg_add_section: link a new empty section at the tail and hand it out. */
    method AddSection(name: CString) returns (st: Outcome, section: Section?)
      requires Valid()
      modifies this
      ensures Valid()
      ensures st == StatusOf(AddSectionTo(old(Contents()), name))
      ensures st.Pass? ==> section != null && fresh(section) && sections == old(sections) + [section]
      ensures st.Fail? ==> section == null && sections == old(sections)
      ensures Contents() == if st.Pass? then AddSectionTo(old(Contents()), name).value else old(Contents())
    {
      if name == "" {
        return Fail(EINVAL), null;
      }
      section := new Section(name);
      sections := sections + [section];
      st := Pass;
    }

    /** ini_cfg_find_sections: count the sections named name, then collect them in list order. */
    method FindSections(name: CString) returns (st: Outcome, found: seq<Section>, count: nat)
      ensures st == StatusOf(FindSectionsIn(Contents(), name))
      ensures st.Fail? ==> found == [] && count == 0
      ensures st.Pass? ==> found == Filter(sections, NameIs(name)) && count == |found|
      ensures st.Pass? ==> Snapshot(found) == FindSectionsIn(Contents(), name).value
    {
      found, count := [], 0;
      if name == "" {
        return Fail(EINVAL), found, count;
      }
      var ss := sections;
      count := CountNamed(ss, name);
      found := CollectNamed(ss, name);
      SnapshotNamed(ss, name);
      st := Pass;
    }

    /** ini_cfg_delete_sections: a walk that unlinks every section named name. */
    method DeleteSections(name: CString) returns (st: Outcome)
      requires Valid()
      modifies this
      ensures Valid()
      ensures st == StatusOf(DeleteSectionsFrom(old(Contents()), name))
      ensures sections == if st.Pass? then Filter(old(sections), NameIsNot(name)) else old(sections)
      ensures Contents() == if st.Pass? then DeleteSectionsFrom(old(Contents()), name).value else old(Contents())
    {
      if name == "" {
        return Fail(EINVAL);
      }
      var ss := sections;
      var kept := KeepOthers(ss, name);
      FilterDistinct(ss, NameIsNot(name));
      SnapshotNotNamed(ss, name);
      sections := kept;
      st := Pass;
    }
  }
}
