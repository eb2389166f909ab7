/**
 * The delete walks of ini_cfg_delete_sections and ini_cfg_delete_key as the C code writes
 * them, over a linked list whose nodes are numbered: the walk frees every node with the name
 * (or key) but relinks only the list head, so a match further down stays linked from its
 * predecessor after it is freed, and the nodes after it are cut off. Both functions share this
 * loop; `names` holds section names for the one and keys for the other.
 */
module LinkedDelete {
  import opened Chars
  import opened Results

  /** The nodes of a list: node i has names[i] and successor next[i] (-1 is NULL); head is the first. */
  datatype Links = Links(names: seq<CString>, next: seq<int>, head: int, freed: set<nat>)

  /** Every link points at a node or is NULL. */
  predicate Linked(l: Links) {
    |l.next| == |l.names| && -1 <= l.head < |l.names| &&
    forall i :: 0 <= i < |l.next| ==> -1 <= l.next[i] < |l.names|
  }

  /** The nodes met following the links from node from, at most fuel of them. */
  function Walk(l: Links, from: int, fuel: nat): (w: seq<nat>)
    requires Linked(l) && -1 <= from < |l.names|
    ensures |w| <= fuel
    ensures forall i :: 0 <= i < |w| ==> w[i] < |l.names|
    ensures from != -1 && fuel > 0 ==> w != [] && w[0] == from
    decreases fuel
  {
    if from == -1 || fuel == 0 then [] else [from] + Walk(l, l.next[from], fuel - 1)
  }

  /**
   * One pass of the C loop per node from cursor on: a node with the name is the candidate; if
   * it is the head the head moves to its successor; the cursor moves on; the candidate's link
   * is cleared and the node freed.
   */
  function UnlinkFrom(l: Links, name: CString, cursor: int, fuel: nat): (r: Links)
    requires Linked(l) && -1 <= cursor < |l.names|
    ensures Linked(r) && r.names == l.names
    ensures l.freed <= r.freed
    ensures forall i :: i in r.freed && i !in l.freed ==> i < |l.names| && l.names[i] == name
    decreases fuel
  {
    if cursor == -1 || fuel == 0 then l
    else
      var candidate := l.names[cursor] == name;
      var head := if candidate && cursor == l.head then l.next[cursor] else l.head;
      var following := l.next[cursor];
      var next := if candidate then l.next[cursor := -1] else l.next;
      var freed := if candidate then l.freed + {cursor} else l.freed;
      UnlinkFrom(Links(l.names, next, head, freed), name, following, fuel - 1)
  }

  /** ini_cfg_delete_sections and ini_cfg_delete_key as written: EINVAL on an empty name, else the walk from the head. */
  function DeleteAsWritten(l: Links, name: CString): (r: Result<Links>)
    requires Linked(l)
    ensures r.Err? <==> name == ""
    ensures r.Err? ==> r.error == EINVAL
    ensures r.Ok? ==> r.value.names == l.names && l.freed <= r.value.freed
    ensures r.Ok? ==> forall i :: i in r.value.freed && i !in l.freed ==> i < |l.names| && l.names[i] == name
  {
    if name == "" then Err(EINVAL) else Ok(UnlinkFrom(l, name, l.head, |l.names|))
  }

  /** A list of three nodes linked in index order. */
  function Three(a: CString, b: CString, c: CString): (l: Links)
    ensures Linked(l)
  {
    Links([a, b, c], [1, 2, -1], 0, {})
  }

  /**
   * Deleting the middle node of a, b, c when only b has the name: the list still reaches b,
   * now freed, and no longer reaches c.
   */
  lemma MiddleMatchDangles(a: CString, b: CString, c: CString)
    requires b != "" && a != b && c != b
    ensures DeleteAsWritten(Three(a, b, c), b).Ok?
    ensures var r := DeleteAsWritten(Three(a, b, c), b).value;
      Walk(r, r.head, 3) == [0, 1] && 1 in r.freed
  {
    var l := Three(a, b, c);
    var l1 := Links(l.names, l.next, 0, {});
    var l2 := Links(l.names, [1, -1, -1], 0, {1});
    assert UnlinkFrom(l, b, 0, 3) == UnlinkFrom(l1, b, 1, 2);
    assert UnlinkFrom(l1, b, 1, 2) == UnlinkFrom(l2, b, 2, 1);
    assert UnlinkFrom(l2, b, 2, 1) == UnlinkFrom(l2, b, -1, 0);
    assert Walk(l2, 1, 2) == [1] + Walk(l2, -1, 1);
  }

  /** Deleting the head of a, b, c when only a has the name is handled: the list reads b, c and reaches no freed node. */
  lemma HeadMatchHandled(a: CString, b: CString, c: CString)
    requires a != "" && b != a && c != a
    ensures DeleteAsWritten(Three(a, b, c), a).Ok?
    ensures var r := DeleteAsWritten(Three(a, b, c), a).value;
      Walk(r, r.head, 3) == [1, 2] && r.freed == {0}
  {
    var l := Three(a, b, c);
    var l1 := Links(l.names, [-1, 2, -1], 1, {0});
    assert UnlinkFrom(l, a, 0, 3) == UnlinkFrom(l1, a, 1, 2);
    assert UnlinkFrom(l1, a, 1, 2) == UnlinkFrom(l1, a, 2, 1);
    assert UnlinkFrom(l1, a, 2, 1) == UnlinkFrom(l1, a, -1, 0);
    assert Walk(l1, 2, 2) == [2] + Walk(l1, -1, 1);
    assert Walk(l1, 1, 3) == [1] + Walk(l1, 2, 2);
  }

  /** The sections Keep, Drop, Tail: deleting Drop as written leaves a freed node linked. */
  lemma SectionDeleteDangles()
    ensures var r := DeleteAsWritten(Three("Keep", "Drop", "Tail"), "Drop");
      r.Ok? && Walk(r.value, r.value.head, 3) == [0, 1] && 1 in r.value.freed
  {
    MiddleMatchDangles("Keep", "Drop", "Tail");
  }

  /** The pairs host, port, user: deleting port as written leaves a freed node linked. */
  lemma KeyDeleteDangles()
    ensures var r := DeleteAsWritten(Three("host", "port", "user"), "port");
      r.Ok? && Walk(r.value, r.value.head, 3) == [0, 1] && 1 in r.value.freed
  {
    MiddleMatchDangles("host", "port", "user");
  }
}
