/**
 * The line grammar of iniparser.c: the section-header recogniser
 * (ini_cfg_parse_section_name) and the key/value recogniser (ini_cfg_parse_key_value).
 *
 * Each recogniser is given twice: as a function that says where each cursor loop stops
 * (ParseSectionName, ParseKeyValue), and as the cursor-driven loops of the C code
 * (ScanSectionName, ScanKeyValue), proved to compute that function. The lemmas below
 * show that the function accepts exactly the lines of the grammar
 *   header:    WS* '[' WS* ALPHA+ WS* ']' WS* END
 *   key/value: WS* ALNUM+ WS* '=' WS* NONWS+ WS* END
 * and returns the runs the grammar names.
 */
module Grammar {
  import opened Chars
  import opened Results

  /** ini_cfg_parse_section_name: the name of a `[name]` line, or EBADMSG. */
  function ParseSectionName(line: CString): (r: Result<CString>)
    ensures r.Err? ==> r.error == EBADMSG
    ensures r.Ok? ==> r.value != ""
  {
    var i0 := Span(line, 0, IsSpace);
    if i0 == |line| || line[i0] != '[' then Err(EBADMSG)
    else
      var i1 := Span(line, i0 + 1, IsSpace);
      if i1 == |line| then Err(EBADMSG)
      else
        var i2 := Span(line, i1, IsAlpha);
        var i3 := Span(line, i2, IsSpace);
        if i3 == |line| || line[i3] != ']' then Err(EBADMSG)
        else
          var i4 := Span(line, i3 + 1, IsSpace);
          if i4 < |line| || i2 == i1 then Err(EBADMSG)
          else Ok(Slice(line, i1, i2))
  }

  /** ini_cfg_parse_key_value: the key and the value of a `key=value` line, or EBADMSG. */
  function ParseKeyValue(line: CString): (r: Result<(CString, CString)>)
    ensures r.Err? ==> r.error == EBADMSG
    ensures r.Ok? ==> r.value.0 != "" && r.value.1 != ""
  {
    var i0 := Span(line, 0, IsSpace);
    if i0 == |line| then Err(EBADMSG)
    else
      var i1 := Span(line, i0, IsAlnum);
      var i2 := Span(line, i1, IsSpace);
      if i2 == |line| || line[i2] != '=' then Err(EBADMSG)
      else
        var i3 := Span(line, i2 + 1, IsSpace);
        if i3 == |line| then Err(EBADMSG)
        else
          var i4 := Span(line, i3, IsValueChar);
          var i5 := Span(line, i4, IsSpace);
          if i5 < |line| || i1 == i0 || i4 == i3 then Err(EBADMSG)
          else Ok((Slice(line, i0, i1), Slice(line, i3, i4)))
  }

  /** ini_cfg_parse_section_name as the C code runs it: a cursor advanced by one loop per run. */
  method ScanSectionName(buffer: CString) returns (r: Result<CString>)
    ensures r == ParseSectionName(buffer)
  {
    // skip leading whitespace, then check and skip the '[' prefix
    var cursor := Skip(buffer, 0, IsSpace);
    if cursor == |buffer| || buffer[cursor] != '[' {
      HeaderRejectedOpening(buffer, cursor);
      return Err(EBADMSG);
    }
    ghost var opening := cursor;
    cursor := Skip(buffer, cursor + 1, IsSpace);
    var marker := cursor;
    if marker == |buffer| {
      HeaderRejectedNoName(buffer, opening);
      return Err(EBADMSG);
    }
    // the name: letters only
    cursor := Skip(buffer, cursor, IsAlpha);
    var len := cursor - marker;
    // skip whitespace, then check and skip the ']' suffix
    cursor := Skip(buffer, cursor, IsSpace);
    if cursor == |buffer| || buffer[cursor] != ']' {
      HeaderRejectedClosing(buffer, opening, marker, marker + len, cursor);
      return Err(EBADMSG);
    }
    ghost var closing := cursor;
    cursor := Skip(buffer, cursor + 1, IsSpace);
    // expect the end of the line and a non-empty name
    if cursor < |buffer| || len == 0 {
      HeaderRejectedAt(buffer, opening, marker, marker + len, closing, cursor);
      return Err(EBADMSG);
    }
    HeaderAcceptedAt(buffer, opening, marker, marker + len, closing);
    r := Ok(Slice(buffer, marker, marker + len));
  }

  /** ini_cfg_parse_key_value as the C code runs it. */
  method ScanKeyValue(buffer: CString) returns (r: Result<(CString, CString)>)
    ensures r == ParseKeyValue(buffer)
  {
    var cursor := Skip(buffer, 0, IsSpace);
    var keyMarker := cursor;
    if keyMarker == |buffer| {
      EntryRejectedBlank(buffer);
      return Err(EBADMSG);
    }
    // the key: letters and digits only
    cursor := Skip(buffer, cursor, IsAlnum);
    var lenKey := cursor - keyMarker;
    // skip whitespace, then check and skip the '=' operator
    cursor := Skip(buffer, cursor, IsSpace);
    if cursor == |buffer| || buffer[cursor] != '=' {
      EntryRejectedOperator(buffer, keyMarker, keyMarker + lenKey, cursor);
      return Err(EBADMSG);
    }
    ghost var operator := cursor;
    cursor := Skip(buffer, cursor + 1, IsSpace);
    var valueMarker := cursor;
    if valueMarker == |buffer| {
      EntryRejectedNoValue(buffer, keyMarker, keyMarker + lenKey, operator);
      return Err(EBADMSG);
    }
    // the value: everything up to the next whitespace
    cursor := Skip(buffer, cursor, IsValueChar);
    var lenValue := cursor - valueMarker;
    cursor := Skip(buffer, cursor, IsSpace);
    // expect the end of the line, a non-empty key and a non-empty value
    if cursor < |buffer| || lenKey == 0 || lenValue == 0 {
      EntryRejectedAt(buffer, keyMarker, keyMarker + lenKey, operator, valueMarker, valueMarker + lenValue, cursor);
      return Err(EBADMSG);
    }
    EntryAcceptedAt(buffer, keyMarker, keyMarker + lenKey, operator, valueMarker, valueMarker + lenValue);
    var key: CString := Slice(buffer, keyMarker, keyMarker + lenKey);
    var value: CString := Slice(buffer, valueMarker, valueMarker + lenValue);
    r := Ok((key, value));
  }

  /** A header line: leading blanks, '[', blanks, the name, blanks, ']', trailing blanks. */
  function HeaderLine(a: string, b: string, name: string, c: string, d: string): string {
    a + ("[" + (b + (name + (c + ("]" + d)))))
  }

  /** A key/value line: leading blanks, the key, blanks, '=', blanks, the value, trailing blanks. */
  function EntryLine(a: string, key: string, b: string, c: string, value: string, d: string): string {
    a + (key + (b + ("=" + (c + (value + d)))))
  }

  /** Cutting s at i. */
  lemma PrefixSuffix(s: string, i: nat)
    requires i <= |s|
    ensures s == s[..i] + s[i..]
  {
  }

  /** Cutting the suffix of s from j at k. */
  lemma SuffixSplit(s: string, j: nat, k: nat)
    requires j <= k <= |s|
    ensures s[j..] == s[j..k] + s[k..]
  {
  }

  /** The suffix of s from j, when it starts with the one-character string t. */
  lemma SuffixFirst(s: string, j: nat, t: string)
    requires j < |s| && |t| == 1 && s[j] == t[0]
    ensures s[j..] == t + s[j + 1..]
  {
  }

  /** ParseSectionName on a line whose cursor positions are known. */
  lemma HeaderAcceptedAt(line: CString, p0: nat, p1: nat, p2: nat, p3: nat)
    requires p0 < p1 < p2 <= p3 < |line| && line[p0] == '[' && line[p3] == ']'
    requires Span(line, 0, IsSpace) == p0 && Span(line, p0 + 1, IsSpace) == p1
    requires Span(line, p1, IsAlpha) == p2 && Span(line, p2, IsSpace) == p3
    requires Span(line, p3 + 1, IsSpace) == |line|
    ensures ParseSectionName(line) == Ok(Slice(line, p1, p2))
  {
  }

  /** ParseSectionName on a line whose first non-blank is not '['. */
  lemma HeaderRejectedOpening(line: CString, p0: nat)
    requires p0 <= |line| && Span(line, 0, IsSpace) == p0
    requires p0 == |line| || line[p0] != '['
    ensures ParseSectionName(line) == Err(EBADMSG)
  {
  }

  /** ParseSectionName on a line that ends after the '[' and its blanks. */
  lemma HeaderRejectedNoName(line: CString, p0: nat)
    requires p0 < |line| && line[p0] == '['
    requires Span(line, 0, IsSpace) == p0 && Span(line, p0 + 1, IsSpace) == |line|
    ensures ParseSectionName(line) == Err(EBADMSG)
  {
  }

  /** ParseSectionName on a line where ']' does not follow the name and its blanks. */
  lemma HeaderRejectedClosing(line: CString, p0: nat, p1: nat, p2: nat, p3: nat)
    requires p0 < p1 <= p2 <= p3 <= |line| && p1 < |line| && line[p0] == '['
    requires Span(line, 0, IsSpace) == p0 && Span(line, p0 + 1, IsSpace) == p1
    requires Span(line, p1, IsAlpha) == p2 && Span(line, p2, IsSpace) == p3
    requires p3 == |line| || line[p3] != ']'
    ensures ParseSectionName(line) == Err(EBADMSG)
  {
  }

  /** ParseSectionName on a line whose name is empty or that goes on after the ']'. */
  lemma HeaderRejectedAt(line: CString, p0: nat, p1: nat, p2: nat, p3: nat, p4: nat)
    requires p0 < p1 <= p2 <= p3 < p4 <= |line| && p1 < |line| && line[p0] == '[' && line[p3] == ']'
    requires Span(line, 0, IsSpace) == p0 && Span(line, p0 + 1, IsSpace) == p1
    requires Span(line, p1, IsAlpha) == p2 && Span(line, p2, IsSpace) == p3
    requires Span(line, p3 + 1, IsSpace) == p4
    requires p4 < |line| || p1 == p2
    ensures ParseSectionName(line) == Err(EBADMSG)
  {
  }

  /** Where the brackets and the name of a header line sit in it. */
  lemma HeaderSlices(a: string, b: string, name: string, c: string, d: string, line: string)
    requires line == HeaderLine(a, b, name, c, d)
    ensures var p1 := |a| + 1 + |b|;
      var p3 := p1 + |name| + |c|;
      |line| == p3 + 1 + |d| && line[|a|] == '[' && line[p3] == ']' && line[p1..p1 + |name|] == name
  {
    var p1 := |a| + 1 + |b|;
    var r3 := name + (c + ("]" + d));
    assert line[p1..] == r3;
    assert r3[..|name|] == name;
  }

  // Where a position k of a header line falls in the suffix that holds it:
  // r1 = "[" + r2, r2 = b + r3, r3 = name + r4, r4 = c + r5, r5 = "]" + d.

  lemma HeaderShift1(a: string, b: string, name: string, c: string, d: string, j: nat, k: nat, p: char -> bool)
    requires j <= 1 + |b| + |name| + |c| + 1 + |d| && k == |a| + j
    ensures Span(HeaderLine(a, b, name, c, d), k, p) == |a| + Span("[" + (b + (name + (c + ("]" + d)))), j, p)
  {
    SpanShift(a, "[" + (b + (name + (c + ("]" + d)))), j, k, p);
  }

  lemma HeaderShift2(a: string, b: string, name: string, c: string, d: string, j: nat, k: nat, p: char -> bool)
    requires j <= |b| + |name| + |c| + 1 + |d| && k == |a| + 1 + j
    ensures Span(HeaderLine(a, b, name, c, d), k, p) == |a| + 1 + Span(b + (name + (c + ("]" + d))), j, p)
  {
    HeaderShift1(a, b, name, c, d, 1 + j, k, p);
    SpanShift("[", b + (name + (c + ("]" + d))), j, 1 + j, p);
  }

  lemma HeaderShift3(a: string, b: string, name: string, c: string, d: string, j: nat, k: nat, p: char -> bool)
    requires j <= |name| + |c| + 1 + |d| && k == |a| + 1 + |b| + j
    ensures Span(HeaderLine(a, b, name, c, d), k, p) == |a| + 1 + |b| + Span(name + (c + ("]" + d)), j, p)
  {
    HeaderShift2(a, b, name, c, d, |b| + j, k, p);
    SpanShift(b, name + (c + ("]" + d)), j, |b| + j, p);
  }

  lemma HeaderShift4(a: string, b: string, name: string, c: string, d: string, j: nat, k: nat, p: char -> bool)
    requires j <= |c| + 1 + |d| && k == |a| + 1 + |b| + |name| + j
    ensures Span(HeaderLine(a, b, name, c, d), k, p) == |a| + 1 + |b| + |name| + Span(c + ("]" + d), j, p)
  {
    HeaderShift3(a, b, name, c, d, |name| + j, k, p);
    SpanShift(name, c + ("]" + d), j, |name| + j, p);
  }

  lemma HeaderShift5(a: string, b: string, name: string, c: string, d: string, j: nat, k: nat, p: char -> bool)
    requires j <= |d| && k == |a| + 1 + |b| + |name| + |c| + 1 + j
    ensures Span(HeaderLine(a, b, name, c, d), k, p) == |a| + 1 + |b| + |name| + |c| + 1 + Span(d, j, p)
  {
    HeaderShift4(a, b, name, c, d, |c| + 1 + j, k, p);
    SpanShift(c, "]" + d, 1 + j, |c| + 1 + j, p);
    SpanShift("]", d, j, 1 + j, p);
  }

  /** The leading blanks of a header line end at '['. */
  lemma HeaderSpan0(a: string, b: string, name: string, c: string, d: string, line: string)
    requires line == HeaderLine(a, b, name, c, d)
    requires All(a, IsSpace)
    ensures Span(line, 0, IsSpace) == |a|
  {
    SpanPiece(a, "[" + (b + (name + (c + ("]" + d)))), IsSpace);
  }

  /** The blanks after '[' end at the name. */
  lemma HeaderSpan1(a: string, b: string, name: string, c: string, d: string, line: string)
    requires line == HeaderLine(a, b, name, c, d)
    requires All(b, IsSpace) && IsName(name)
    ensures Span(line, |a| + 1, IsSpace) == |a| + 1 + |b|
  {
    HeaderShift2(a, b, name, c, d, 0, |a| + 1, IsSpace);
    SpanPiece(b, name + (c + ("]" + d)), IsSpace);
  }

  /** The name ends at the blanks before ']' or at ']'. */
  lemma HeaderSpan2(a: string, b: string, name: string, c: string, d: string, line: string)
    requires line == HeaderLine(a, b, name, c, d)
    requires All(c, IsSpace) && IsName(name)
    ensures Span(line, |a| + 1 + |b|, IsAlpha) == |a| + 1 + |b| + |name|
  {
    HeaderShift3(a, b, name, c, d, 0, |a| + 1 + |b|, IsAlpha);
    SpanPiece(name, c + ("]" + d), IsAlpha);
  }

  /** The blanks after the name end at ']'. */
  lemma HeaderSpan3(a: string, b: string, name: string, c: string, d: string, line: string)
    requires line == HeaderLine(a, b, name, c, d)
    requires All(c, IsSpace)
    ensures Span(line, |a| + 1 + |b| + |name|, IsSpace) == |a| + 1 + |b| + |name| + |c|
  {
    HeaderShift4(a, b, name, c, d, 0, |a| + 1 + |b| + |name|, IsSpace);
    SpanPiece(c, "]" + d, IsSpace);
  }

  /** The blanks after ']' reach the end of the line. */
  lemma HeaderSpan4(a: string, b: string, name: string, c: string, d: string, line: string)
    requires line == HeaderLine(a, b, name, c, d)
    requires All(d, IsSpace)
    ensures Span(line, |a| + 1 + |b| + |name| + |c| + 1, IsSpace) == |a| + 1 + |b| + |name| + |c| + 1 + |d|
  {
    HeaderShift5(a, b, name, c, d, 0, |a| + 1 + |b| + |name| + |c| + 1, IsSpace);
    SpanWhole(d, IsSpace);
  }

  /** The cursor loops stop at the edges of the pieces of a header line. */
  lemma HeaderSpans(a: string, b: string, name: string, c: string, d: string, line: string)
    requires line == HeaderLine(a, b, name, c, d)
    requires All(a, IsSpace) && All(b, IsSpace) && All(c, IsSpace) && All(d, IsSpace)
    requires IsName(name)
    ensures var p0 := |a|;
      var p1 := p0 + 1 + |b|;
      var p2 := p1 + |name|;
      var p3 := p2 + |c|;
      Span(line, 0, IsSpace) == p0 && Span(line, p0 + 1, IsSpace) == p1 &&
      Span(line, p1, IsAlpha) == p2 && Span(line, p2, IsSpace) == p3 &&
      Span(line, p3 + 1, IsSpace) == p3 + 1 + |d|
  {
    HeaderSpan0(a, b, name, c, d, line);
    HeaderSpan1(a, b, name, c, d, line);
    HeaderSpan2(a, b, name, c, d, line);
    HeaderSpan3(a, b, name, c, d, line);
    HeaderSpan4(a, b, name, c, d, line);
  }

  /** A header line built from blanks and a name holds no NUL. */
  lemma HeaderNoNul(a: string, b: string, name: string, c: string, d: string)
    requires All(a, IsSpace) && All(b, IsSpace) && All(c, IsSpace) && All(d, IsSpace)
    requires IsName(name)
    ensures '\0' !in HeaderLine(a, b, name, c, d)
  {
    NoNul(a, IsSpace);
    NoNul(b, IsSpace);
    NoNul(name, IsAlpha);
    NoNul(c, IsSpace);
    NoNul(d, IsSpace);
  }

  /** Every line of the header grammar is accepted, and its name is returned. */
  lemma HeaderAccepted(a: string, b: string, name: string, c: string, d: string)
    requires All(a, IsSpace) && All(b, IsSpace) && All(c, IsSpace) && All(d, IsSpace)
    requires IsName(name)
    ensures '\0' !in HeaderLine(a, b, name, c, d)
    ensures ParseSectionName(HeaderLine(a, b, name, c, d)) == Ok(name)
  {
    HeaderNoNul(a, b, name, c, d);
    var line: CString := HeaderLine(a, b, name, c, d);
    HeaderSlices(a, b, name, c, d, line);
    HeaderSpans(a, b, name, c, d, line);
    var p1 := |a| + 1 + |b|;
    HeaderAcceptedAt(line, |a|, p1, p1 + |name|, p1 + |name| + |c|);
  }

  /** Cutting a line at the positions of '[' (i0), the name (i1 to i2) and ']' (i3). */
  lemma HeaderPieces(line: string, i0: nat, i1: nat, i2: nat, i3: nat)
    requires i0 < i1 <= i2 <= i3 < |line|
    requires line[i0] == '[' && line[i3] == ']'
    ensures line == HeaderLine(line[..i0], line[i0 + 1..i1], line[i1..i2], line[i2..i3], line[i3 + 1..])
  {
    PrefixSuffix(line, i0);
    SuffixFirst(line, i0, "[");
    SuffixSplit(line, i0 + 1, i1);
    SuffixSplit(line, i1, i2);
    SuffixSplit(line, i2, i3);
    SuffixFirst(line, i3, "]");
  }

  /** The cursor positions of an accepted header line: '[' at i0, the name from i1 to i2, ']' at i3. */
  lemma HeaderCursors(line: CString) returns (i0: nat, i1: nat, i2: nat, i3: nat)
    requires ParseSectionName(line).Ok?
    ensures i0 == Span(line, 0, IsSpace) && i1 == Span(line, i0 + 1, IsSpace)
    ensures i2 == Span(line, i1, IsAlpha) && i3 == Span(line, i2, IsSpace)
    ensures Span(line, i3 + 1, IsSpace) == |line|
    ensures i0 < i1 < i2 <= i3 < |line| && line[i0] == '[' && line[i3] == ']'
    ensures ParseSectionName(line).value == line[i1..i2]
  {
    i0 := Span(line, 0, IsSpace);
    i1 := Span(line, i0 + 1, IsSpace);
    i2 := Span(line, i1, IsAlpha);
    i3 := Span(line, i2, IsSpace);
  }

  /** The runs between the cursor positions of a header line are of the classes the loops skip. */
  lemma HeaderRuns(line: string, i0: nat, i1: nat, i2: nat, i3: nat)
    requires i0 < i1 <= i2 <= i3 < |line|
    requires i0 == Span(line, 0, IsSpace) && i1 == Span(line, i0 + 1, IsSpace)
    requires i2 == Span(line, i1, IsAlpha) && i3 == Span(line, i2, IsSpace)
    requires Span(line, i3 + 1, IsSpace) == |line|
    ensures All(line[..i0], IsSpace) && All(line[i0 + 1..i1], IsSpace) && All(line[i1..i2], IsAlpha)
    ensures All(line[i2..i3], IsSpace) && All(line[i3 + 1..], IsSpace)
  {
    SpanAllFromStart(line, IsSpace);
    SpanAll(line, i0 + 1, IsSpace);
    SpanAll(line, i1, IsAlpha);
    SpanAll(line, i2, IsSpace);
    SpanAllToEnd(line, i3 + 1, IsSpace);
  }

  /** Every line the recogniser accepts is a line of the header grammar around the returned name. */
  lemma HeaderParsed(line: CString) returns (a: string, b: string, c: string, d: string)
    requires ParseSectionName(line).Ok?
    ensures All(a, IsSpace) && All(b, IsSpace) && All(c, IsSpace) && All(d, IsSpace)
    ensures IsName(ParseSectionName(line).value)
    ensures line == HeaderLine(a, b, ParseSectionName(line).value, c, d)
  {
    var i0, i1, i2, i3 := HeaderCursors(line);
    HeaderRuns(line, i0, i1, i2, i3);
    a, b, c, d := line[..i0], line[i0 + 1..i1], line[i2..i3], line[i3 + 1..];
    HeaderPieces(line, i0, i1, i2, i3);
  }

  /** ParseKeyValue on a line whose cursor positions are known. */
  lemma EntryAcceptedAt(line: CString, p0: nat, p1: nat, p2: nat, p3: nat, p4: nat)
    requires p0 < p1 <= p2 < p3 < p4 <= |line| && line[p2] == '='
    requires Span(line, 0, IsSpace) == p0 && Span(line, p0, IsAlnum) == p1
    requires Span(line, p1, IsSpace) == p2 && Span(line, p2 + 1, IsSpace) == p3
    requires Span(line, p3, IsValueChar) == p4 && Span(line, p4, IsSpace) == |line|
    ensures ParseKeyValue(line) == Ok((Slice(line, p0, p1), Slice(line, p3, p4)))
  {
  }

  /** ParseKeyValue on a line of blanks only. */
  lemma EntryRejectedBlank(line: CString)
    requires Span(line, 0, IsSpace) == |line|
    ensures ParseKeyValue(line) == Err(EBADMSG)
  {
  }

  /** ParseKeyValue on a line where the '=' operator does not follow the key. */
  lemma EntryRejectedOperator(line: CString, p0: nat, p1: nat, p2: nat)
    requires p0 <= p1 <= p2 <= |line| && p0 < |line|
    requires Span(line, 0, IsSpace) == p0 && Span(line, p0, IsAlnum) == p1
    requires Span(line, p1, IsSpace) == p2
    requires p2 == |line| || line[p2] != '='
    ensures ParseKeyValue(line) == Err(EBADMSG)
  {
  }

  /** ParseKeyValue on a line that ends after the '=' operator and its blanks. */
  lemma EntryRejectedNoValue(line: CString, p0: nat, p1: nat, p2: nat)
    requires p0 <= p1 <= p2 < |line| && line[p2] == '='
    requires Span(line, 0, IsSpace) == p0 && Span(line, p0, IsAlnum) == p1
    requires Span(line, p1, IsSpace) == p2 && Span(line, p2 + 1, IsSpace) == |line|
    ensures ParseKeyValue(line) == Err(EBADMSG)
  {
  }

  /** ParseKeyValue on a line whose cursor positions are known, when a run is empty or text follows. */
  lemma EntryRejectedAt(line: CString, p0: nat, p1: nat, p2: nat, p3: nat, p4: nat, p5: nat)
    requires p0 <= p1 <= p2 < p3 <= p4 <= p5 <= |line| && p0 < |line| && p3 < |line| && line[p2] == '='
    requires Span(line, 0, IsSpace) == p0 && Span(line, p0, IsAlnum) == p1
    requires Span(line, p1, IsSpace) == p2 && Span(line, p2 + 1, IsSpace) == p3
    requires Span(line, p3, IsValueChar) == p4 && Span(line, p4, IsSpace) == p5
    requires p5 < |line| || p0 == p1 || p3 == p4
    ensures ParseKeyValue(line) == Err(EBADMSG)
  {
  }

  /** Where the key, the operator and the value of a key/value line sit in it. */
  lemma EntrySlices(a: string, key: string, b: string, c: string, value: string, d: string, line: string)
    requires line == EntryLine(a, key, b, c, value, d)
    ensures var p2 := |a| + |key| + |b|;
      var p3 := p2 + 1 + |c|;
      |line| == p3 + |value| + |d| && line[p2] == '=' &&
      line[|a|..|a| + |key|] == key && line[p3..p3 + |value|] == value
  {
    var p3 := |a| + |key| + |b| + 1 + |c|;
    var r1 := key + (b + ("=" + (c + (value + d))));
    assert line[|a|..] == r1;
    assert r1[..|key|] == key;
    assert line[p3..] == value + d;
    assert (value + d)[..|value|] == value;
  }

  // Where a position k of a key/value line falls in the suffix that holds it:
  // r1 = key + r2, r2 = b + r3, r3 = "=" + r4, r4 = c + r5, r5 = value + d.

  lemma EntryShift1(a: string, key: string, b: string, c: string, value: string, d: string, j: nat, k: nat, p: char -> bool)
    requires j <= |key| + |b| + 1 + |c| + |value| + |d| && k == |a| + j
    ensures Span(EntryLine(a, key, b, c, value, d), k, p) == |a| + Span(key + (b + ("=" + (c + (value + d)))), j, p)
  {
    SpanShift(a, key + (b + ("=" + (c + (value + d)))), j, k, p);
  }

  lemma EntryShift2(a: string, key: string, b: string, c: string, value: string, d: string, j: nat, k: nat, p: char -> bool)
    requires j <= |b| + 1 + |c| + |value| + |d| && k == |a| + |key| + j
    ensures Span(EntryLine(a, key, b, c, value, d), k, p) == |a| + |key| + Span(b + ("=" + (c + (value + d))), j, p)
  {
    EntryShift1(a, key, b, c, value, d, |key| + j, k, p);
    SpanShift(key, b + ("=" + (c + (value + d))), j, |key| + j, p);
  }

  lemma EntryShift4(a: string, key: string, b: string, c: string, value: string, d: string, j: nat, k: nat, p: char -> bool)
    requires j <= |c| + |value| + |d| && k == |a| + |key| + |b| + 1 + j
    ensures Span(EntryLine(a, key, b, c, value, d), k, p) == |a| + |key| + |b| + 1 + Span(c + (value + d), j, p)
  {
    EntryShift2(a, key, b, c, value, d, |b| + 1 + j, k, p);
    SpanShift(b, "=" + (c + (value + d)), 1 + j, |b| + 1 + j, p);
    SpanShift("=", c + (value + d), j, 1 + j, p);
  }

  lemma EntryShift5(a: string, key: string, b: string, c: string, value: string, d: string, j: nat, k: nat, p: char -> bool)
    requires j <= |value| + |d| && k == |a| + |key| + |b| + 1 + |c| + j
    ensures Span(EntryLine(a, key, b, c, value, d), k, p) == |a| + |key| + |b| + 1 + |c| + Span(value + d, j, p)
  {
    EntryShift4(a, key, b, c, value, d, |c| + j, k, p);
    SpanShift(c, value + d, j, |c| + j, p);
  }

  /** The leading blanks of a key/value line end at the key. */
  lemma EntrySpan0(a: string, key: string, b: string, c: string, value: string, d: string, line: string)
    requires line == EntryLine(a, key, b, c, value, d)
    requires All(a, IsSpace) && IsKey(key)
    ensures Span(line, 0, IsSpace) == |a|
  {
    SpanPiece(a, key + (b + ("=" + (c + (value + d)))), IsSpace);
  }

  /** The key ends at the blanks before '=' or at '='. */
  lemma EntrySpan1(a: string, key: string, b: string, c: string, value: string, d: string, line: string)
    requires line == EntryLine(a, key, b, c, value, d)
    requires All(b, IsSpace) && IsKey(key)
    ensures Span(line, |a|, IsAlnum) == |a| + |key|
  {
    EntryShift1(a, key, b, c, value, d, 0, |a|, IsAlnum);
    SpanPiece(key, b + ("=" + (c + (value + d))), IsAlnum);
  }

  /** The blanks after the key end at '='. */
  lemma EntrySpan2(a: string, key: string, b: string, c: string, value: string, d: string, line: string)
    requires line == EntryLine(a, key, b, c, value, d)
    requires All(b, IsSpace)
    ensures Span(line, |a| + |key|, IsSpace) == |a| + |key| + |b|
  {
    EntryShift2(a, key, b, c, value, d, 0, |a| + |key|, IsSpace);
    SpanPiece(b, "=" + (c + (value + d)), IsSpace);
  }

  /** The blanks after '=' end at the value. */
  lemma EntrySpan3(a: string, key: string, b: string, c: string, value: string, d: string, line: string)
    requires line == EntryLine(a, key, b, c, value, d)
    requires All(c, IsSpace) && IsValue(value)
    ensures Span(line, |a| + |key| + |b| + 1, IsSpace) == |a| + |key| + |b| + 1 + |c|
  {
    EntryShift4(a, key, b, c, value, d, 0, |a| + |key| + |b| + 1, IsSpace);
    SpanPiece(c, value + d, IsSpace);
  }

  /** The value ends at the trailing blanks or at the end of the line. */
  lemma EntrySpan4(a: string, key: string, b: string, c: string, value: string, d: string, line: string)
    requires line == EntryLine(a, key, b, c, value, d)
    requires All(d, IsSpace) && IsValue(value)
    ensures Span(line, |a| + |key| + |b| + 1 + |c|, IsValueChar) == |a| + |key| + |b| + 1 + |c| + |value|
  {
    EntryShift5(a, key, b, c, value, d, 0, |a| + |key| + |b| + 1 + |c|, IsValueChar);
    SpanPiece(value, d, IsValueChar);
  }

  /** The trailing blanks reach the end of the line. */
  lemma EntrySpan5(a: string, key: string, b: string, c: string, value: string, d: string, line: string)
    requires line == EntryLine(a, key, b, c, value, d)
    requires All(d, IsSpace)
    ensures Span(line, |a| + |key| + |b| + 1 + |c| + |value|, IsSpace) == |a| + |key| + |b| + 1 + |c| + |value| + |d|
  {
    EntryShift5(a, key, b, c, value, d, |value|, |a| + |key| + |b| + 1 + |c| + |value|, IsSpace);
    SpanShift(value, d, 0, |value|, IsSpace);
    SpanWhole(d, IsSpace);
  }

  /** The cursor loops stop at the edges of the pieces of a key/value line. */
  lemma EntrySpans(a: string, key: string, b: string, c: string, value: string, d: string, line: string)
    requires line == EntryLine(a, key, b, c, value, d)
    requires All(a, IsSpace) && All(b, IsSpace) && All(c, IsSpace) && All(d, IsSpace)
    requires IsKey(key) && IsValue(value)
    ensures var p0 := |a|;
      var p1 := p0 + |key|;
      var p2 := p1 + |b|;
      var p3 := p2 + 1 + |c|;
      var p4 := p3 + |value|;
      Span(line, 0, IsSpace) == p0 && Span(line, p0, IsAlnum) == p1 &&
      Span(line, p1, IsSpace) == p2 && Span(line, p2 + 1, IsSpace) == p3 &&
      Span(line, p3, IsValueChar) == p4 && Span(line, p4, IsSpace) == p4 + |d|
  {
    EntrySpan0(a, key, b, c, value, d, line);
    EntrySpan1(a, key, b, c, value, d, line);
    EntrySpan2(a, key, b, c, value, d, line);
    EntrySpan3(a, key, b, c, value, d, line);
    EntrySpan4(a, key, b, c, value, d, line);
    EntrySpan5(a, key, b, c, value, d, line);
  }

  /** A key/value line built from blanks, a key and a value holds no NUL. */
  lemma EntryNoNul(a: string, key: string, b: string, c: string, value: string, d: string)
    requires All(a, IsSpace) && All(b, IsSpace) && All(c, IsSpace) && All(d, IsSpace)
    requires IsKey(key) && IsValue(value)
    ensures '\0' !in EntryLine(a, key, b, c, value, d)
  {
    NoNul(a, IsSpace);
    NoNul(key, IsAlnum);
    NoNul(b, IsSpace);
    NoNul(c, IsSpace);
    NoNul(value, IsValueChar);
    NoNul(d, IsSpace);
  }

  /** Every line of the key/value grammar is accepted, and its key and value are returned. */
  lemma EntryAccepted(a: string, key: string, b: string, c: string, value: string, d: string)
    requires All(a, IsSpace) && All(b, IsSpace) && All(c, IsSpace) && All(d, IsSpace)
    requires IsKey(key) && IsValue(value)
    ensures '\0' !in EntryLine(a, key, b, c, value, d)
    ensures ParseKeyValue(EntryLine(a, key, b, c, value, d)) == Ok((key, value))
  {
    EntryNoNul(a, key, b, c, value, d);
    var line: CString := EntryLine(a, key, b, c, value, d);
    EntrySlices(a, key, b, c, value, d, line);
    EntrySpans(a, key, b, c, value, d, line);
    var p0, p2 := |a|, |a| + |key| + |b|;
    var p3 := p2 + 1 + |c|;
    EntryAcceptedAt(line, p0, p0 + |key|, p2, p3, p3 + |value|);
  }

  /** Cutting a line at the key (i0 to i1), '=' (i2) and the value (i3 to i4). */
  lemma EntryPieces(line: string, i0: nat, i1: nat, i2: nat, i3: nat, i4: nat)
    requires i0 <= i1 <= i2 < i3 <= i4 <= |line|
    requires line[i2] == '='
    ensures line == EntryLine(line[..i0], line[i0..i1], line[i1..i2], line[i2 + 1..i3], line[i3..i4], line[i4..])
  {
    PrefixSuffix(line, i0);
    SuffixSplit(line, i0, i1);
    SuffixSplit(line, i1, i2);
    SuffixFirst(line, i2, "=");
    SuffixSplit(line, i2 + 1, i3);
    SuffixSplit(line, i3, i4);
  }

  /** The cursor positions of an accepted key/value line: the key from i0 to i1, '=' at i2, the value from i3 to i4. */
  lemma EntryCursors(line: CString) returns (i0: nat, i1: nat, i2: nat, i3: nat, i4: nat)
    requires ParseKeyValue(line).Ok?
    ensures i0 == Span(line, 0, IsSpace) && i1 == Span(line, i0, IsAlnum)
    ensures i2 == Span(line, i1, IsSpace) && i3 == Span(line, i2 + 1, IsSpace)
    ensures i4 == Span(line, i3, IsValueChar) && Span(line, i4, IsSpace) == |line|
    ensures i0 < i1 <= i2 < i3 < i4 <= |line| && line[i2] == '='
    ensures ParseKeyValue(line).value == (line[i0..i1], line[i3..i4])
  {
    i0 := Span(line, 0, IsSpace);
    i1 := Span(line, i0, IsAlnum);
    i2 := Span(line, i1, IsSpace);
    i3 := Span(line, i2 + 1, IsSpace);
    i4 := Span(line, i3, IsValueChar);
  }

  /** The runs between the cursor positions of a key/value line are of the classes the loops skip. */
  lemma EntryRuns(line: string, i0: nat, i1: nat, i2: nat, i3: nat, i4: nat)
    requires i0 <= i1 <= i2 < i3 <= i4 <= |line|
    requires i0 == Span(line, 0, IsSpace) && i1 == Span(line, i0, IsAlnum)
    requires i2 == Span(line, i1, IsSpace) && i3 == Span(line, i2 + 1, IsSpace)
    requires i4 == Span(line, i3, IsValueChar) && Span(line, i4, IsSpace) == |line|
    ensures All(line[..i0], IsSpace) && All(line[i0..i1], IsAlnum) && All(line[i1..i2], IsSpace)
    ensures All(line[i2 + 1..i3], IsSpace) && All(line[i3..i4], IsValueChar) && All(line[i4..], IsSpace)
  {
    SpanAllFromStart(line, IsSpace);
    SpanAll(line, i0, IsAlnum);
    SpanAll(line, i1, IsSpace);
    SpanAll(line, i2 + 1, IsSpace);
    SpanAll(line, i3, IsValueChar);
    SpanAllToEnd(line, i4, IsSpace);
  }

  /** Every line the recogniser accepts is a line of the key/value grammar around the returned key and value. */
  lemma EntryParsed(line: CString) returns (a: string, b: string, c: string, d: string)
    requires ParseKeyValue(line).Ok?
    ensures All(a, IsSpace) && All(b, IsSpace) && All(c, IsSpace) && All(d, IsSpace)
    ensures IsKey(ParseKeyValue(line).value.0) && IsValue(ParseKeyValue(line).value.1)
    ensures line == EntryLine(a, ParseKeyValue(line).value.0, b, c, ParseKeyValue(line).value.1, d)
  {
    var i0, i1, i2, i3, i4 := EntryCursors(line);
    EntryRuns(line, i0, i1, i2, i3, i4);
    a, b, c, d := line[..i0], line[i1..i2], line[i2 + 1..i3], line[i4..];
    EntryPieces(line, i0, i1, i2, i3, i4);
  }

  /** `[]`: the name is empty. */
  lemma HeaderRejectsEmptyName()
    ensures ParseSectionName("[]") == Err(EBADMSG)
  {
    var line: CString := "[]";
    assert Span(line, 1, IsSpace) == 1;
    assert Span(line, 1, IsAlpha) == 1;
  }

  /** `[1Sec]`: a digit in the name. */
  lemma HeaderRejectsDigit()
    ensures ParseSectionName("[1Sec]") == Err(EBADMSG)
  {
    var line: CString := "[1Sec]";
    assert Span(line, 1, IsSpace) == 1;
    assert Span(line, 1, IsAlpha) == 1;
    assert Span(line, 1, IsSpace) == 1;
  }

  /** `[Sec tion]`: text after the blank that follows the name. */
  lemma HeaderRejectsInnerBlank()
    ensures ParseSectionName("[Sec tion]") == Err(EBADMSG)
  {
    var line: CString := "[Sec tion]";
    assert Span(line, 4, IsAlpha) == 4;
    assert Span(line, 1, IsAlpha) == 4;
    assert Span(line, 5, IsSpace) == 5;
    assert Span(line, 4, IsSpace) == 5;
  }

  /** `[Sec]x`: text after the closing bracket. */
  lemma HeaderRejectsTrailingText()
    ensures ParseSectionName("[Sec]x") == Err(EBADMSG)
  {
    var line: CString := "[Sec]x";
    assert Span(line, 4, IsAlpha) == 4;
    assert Span(line, 1, IsAlpha) == 4;
    assert Span(line, 5, IsSpace) == 5;
  }

  /** `=value`: the key is empty. */
  lemma EntryRejectsEmptyKey()
    ensures ParseKeyValue("=value") == Err(EBADMSG)
  {
    var line: CString := "=value";
    assert Span(line, 0, IsAlnum) == 0;
    assert Span(line, 6, IsValueChar) == 6;
    assert Span(line, 1, IsValueChar) == 6;
  }

  /** `key=`: the value is empty. */
  lemma EntryRejectsEmptyValue()
    ensures ParseKeyValue("key=") == Err(EBADMSG)
  {
    var line: CString := "key=";
    assert Span(line, 3, IsAlnum) == 3;
    assert Span(line, 0, IsAlnum) == 3;
  }

  /** `key value`: no '=' operator. */
  lemma EntryRejectsMissingOperator()
    ensures ParseKeyValue("key value") == Err(EBADMSG)
  {
    var line: CString := "key value";
    assert Span(line, 3, IsAlnum) == 3;
    assert Span(line, 0, IsAlnum) == 3;
    assert Span(line, 4, IsSpace) == 4;
  }

  /** `key =value extra`: a blank inside the value, followed by more text. */
  lemma EntryRejectsTextAfterValue()
    ensures ParseKeyValue("key =value extra") == Err(EBADMSG)
  {
    var line: CString := "key =value extra";
    assert Span(line, 3, IsAlnum) == 3;
    assert Span(line, 0, IsAlnum) == 3;
    assert Span(line, 4, IsSpace) == 4;
    assert Span(line, 3, IsSpace) == 4;
    assert Span(line, 10, IsValueChar) == 10;
    assert Span(line, 8, IsValueChar) == 10;
    assert Span(line, 6, IsValueChar) == 10;
    assert Span(line, 5, IsValueChar) == 10;
    assert Span(line, 11, IsSpace) == 11;
    assert Span(line, 10, IsSpace) == 11;
    EntryRejectedAt(line, 0, 3, 4, 5, 10, 11);
  }

  /** The cursor loops over the suffix t of line from i stop where they stop over line, less i. */
  lemma SpanInSuffix(line: string, t: string, i: nat, j: nat, k: nat, p: char -> bool)
    requires i <= |line| && t == line[i..] && j <= |t| && k == i + j
    ensures Span(t, j, p) + i == Span(line, k, p)
  {
    assert line[..i] + t == line;
    SpanShift(line[..i], t, j, k, p);
  }

  /** A cursor loop over line from k that stops at e stops at e - i over the suffix t from i. */
  lemma SpanMoved(line: string, t: string, i: nat, k: nat, e: nat, p: char -> bool)
    requires i <= k <= |line| && t == line[i..] && Span(line, k, p) == e
    ensures Span(t, k - i, p) == e - i
  {
    SpanInSuffix(line, t, i, k - i, k, p);
  }

  /** A piece of line from a to b is the piece from a - i to b - i of its suffix t from i. */
  lemma SliceInSuffix(line: string, t: string, i: nat, a: nat, b: nat)
    requires i <= a <= b <= |line| && t == line[i..]
    ensures t[a - i..b - i] == line[a..b]
  {
  }

  /** The leading blanks of line end at i, so the suffix from i has none. */
  lemma FirstNonBlank(line: string, i: nat)
    requires i == Span(line, 0, IsSpace)
    ensures Span(line[i..], 0, IsSpace) == 0
  {
    SpanRun(line, 0, IsSpace);
    SpanThrough(line, 0, i, IsSpace);
    SpanInSuffix(line, line[i..], i, 0, i, IsSpace);
  }

  /** A header whose ']' is missing, moved into the suffix t of line from i. */
  lemma HeaderClosingShifted(t: CString, i: nat, i1: nat, i2: nat, i3: nat)
    requires i < i1 <= i2 <= i3 <= i + |t| && i1 < i + |t| && t[0] == '['
    requires Span(t, 0, IsSpace) == 0 && Span(t, 1, IsSpace) == i1 - i
    requires Span(t, i1 - i, IsAlpha) == i2 - i && Span(t, i2 - i, IsSpace) == i3 - i
    requires i3 == i + |t| || t[i3 - i] != ']'
    ensures ParseSectionName(t) == Err(EBADMSG)
  {
    HeaderRejectedClosing(t, 0, i1 - i, i2 - i, i3 - i);
  }

  /** A header whose ']' is missing, seen from its first non-blank: still rejected. */
  lemma HeaderClosingInSuffix(line: CString, i: nat, i1: nat, i2: nat, i3: nat)
    requires i < i1 <= i2 <= i3 <= |line| && i1 < |line| && line[i] == '['
    requires Span(line, 0, IsSpace) == i && Span(line, i + 1, IsSpace) == i1
    requires Span(line, i1, IsAlpha) == i2 && Span(line, i2, IsSpace) == i3
    requires i3 == |line| || line[i3] != ']'
    ensures ParseSectionName(Slice(line, i, |line|)) == Err(EBADMSG)
  {
    var t := Slice(line, i, |line|);
    FirstNonBlank(line, i);
    SpanInSuffix(line, t, i, 1, i + 1, IsSpace);
    SpanMoved(line, t, i, i1, i2, IsAlpha);
    SpanMoved(line, t, i, i2, i3, IsSpace);
    assert i3 < |line| ==> t[i3 - i] == line[i3];
    HeaderClosingShifted(t, i, i1, i2, i3);
  }

  /** A header with text after ']' or no name, moved into the suffix t of line from i. */
  lemma HeaderTailShifted(t: CString, i: nat, i1: nat, i2: nat, i3: nat, i4: nat)
    requires i < i1 <= i2 <= i3 < i4 <= i + |t| && i1 < i + |t| && t[0] == '[' && t[i3 - i] == ']'
    requires Span(t, 0, IsSpace) == 0 && Span(t, 1, IsSpace) == i1 - i
    requires Span(t, i1 - i, IsAlpha) == i2 - i && Span(t, i2 - i, IsSpace) == i3 - i
    requires Span(t, (i3 + 1) - i, IsSpace) == i4 - i
    requires i4 < i + |t| || i1 == i2
    ensures ParseSectionName(t) == Err(EBADMSG)
  {
    HeaderRejectedAt(t, 0, i1 - i, i2 - i, i3 - i, i4 - i);
  }

  /** A header with text after ']' or no name, seen from its first non-blank: still rejected. */
  lemma HeaderTailInSuffix(line: CString, i: nat, i1: nat, i2: nat, i3: nat, i4: nat)
    requires i < i1 <= i2 <= i3 < i4 <= |line| && i1 < |line| && line[i] == '[' && line[i3] == ']'
    requires Span(line, 0, IsSpace) == i && Span(line, i + 1, IsSpace) == i1
    requires Span(line, i1, IsAlpha) == i2 && Span(line, i2, IsSpace) == i3
    requires Span(line, i3 + 1, IsSpace) == i4
    requires i4 < |line| || i1 == i2
    ensures ParseSectionName(Slice(line, i, |line|)) == Err(EBADMSG)
  {
    var t := Slice(line, i, |line|);
    FirstNonBlank(line, i);
    SpanInSuffix(line, t, i, 1, i + 1, IsSpace);
    SpanMoved(line, t, i, i1, i2, IsAlpha);
    SpanMoved(line, t, i, i2, i3, IsSpace);
    SpanMoved(line, t, i, i3 + 1, i4, IsSpace);
    assert t[i3 - i] == line[i3];
    HeaderTailShifted(t, i, i1, i2, i3, i4);
  }

  /** The cursor positions of an accepted header, moved into the suffix t of line from i. */
  lemma HeaderAcceptedShifted(t: CString, i: nat, i1: nat, i2: nat, i3: nat, name: CString)
    requires i < i1 < i2 <= i3 < i + |t| && t[0] == '[' && t[i3 - i] == ']'
    requires Span(t, 0, IsSpace) == 0 && Span(t, 1, IsSpace) == i1 - i
    requires Span(t, i1 - i, IsAlpha) == i2 - i && Span(t, i2 - i, IsSpace) == i3 - i
    requires Span(t, (i3 + 1) - i, IsSpace) == |t| && t[i1 - i..i2 - i] == name
    ensures ParseSectionName(t) == Ok(name)
  {
    HeaderAcceptedAt(t, 0, i1 - i, i2 - i, i3 - i);
  }

  /** An accepted header seen from its first non-blank: the same name. */
  lemma HeaderAcceptedInSuffix(line: CString, i: nat, i1: nat, i2: nat, i3: nat)
    requires i < i1 < i2 <= i3 < |line| && line[i] == '[' && line[i3] == ']'
    requires Span(line, 0, IsSpace) == i && Span(line, i + 1, IsSpace) == i1
    requires Span(line, i1, IsAlpha) == i2 && Span(line, i2, IsSpace) == i3
    requires Span(line, i3 + 1, IsSpace) == |line|
    ensures ParseSectionName(Slice(line, i, |line|)) == Ok(Slice(line, i1, i2))
  {
    var t := Slice(line, i, |line|);
    FirstNonBlank(line, i);
    SpanInSuffix(line, t, i, 1, i + 1, IsSpace);
    SpanMoved(line, t, i, i1, i2, IsAlpha);
    SpanMoved(line, t, i, i2, i3, IsSpace);
    SpanMoved(line, t, i, i3 + 1, |line|, IsSpace);
    SliceInSuffix(line, t, i, i1, i2);
    HeaderAcceptedShifted(t, i, i1, i2, i3, Slice(line, i1, i2));
  }

  /** ini_cfg_parse_section_name skips leading blanks itself: it reads the same from the first non-blank. */
  lemma HeaderFromFirstNonBlank(line: CString, i: nat)
    requires i == Span(line, 0, IsSpace)
    ensures ParseSectionName(Slice(line, i, |line|)) == ParseSectionName(line)
  {
    var t := Slice(line, i, |line|);
    if i == |line| || line[i] != '[' {
      FirstNonBlank(line, i);
      assert i < |line| ==> t[0] == line[i];
      HeaderRejectedOpening(line, i);
      HeaderRejectedOpening(t, 0);
    } else {
      var i1 := Span(line, i + 1, IsSpace);
      if i1 == |line| {
        FirstNonBlank(line, i);
        SpanInSuffix(line, t, i, 1, i + 1, IsSpace);
        HeaderRejectedNoName(line, i);
        HeaderRejectedNoName(t, 0);
      } else {
        var i2 := Span(line, i1, IsAlpha);
        var i3 := Span(line, i2, IsSpace);
        if i3 == |line| || line[i3] != ']' {
          HeaderRejectedClosing(line, i, i1, i2, i3);
          HeaderClosingInSuffix(line, i, i1, i2, i3);
        } else {
          var i4 := Span(line, i3 + 1, IsSpace);
          if i4 < |line| || i1 == i2 {
            HeaderRejectedAt(line, i, i1, i2, i3, i4);
            HeaderTailInSuffix(line, i, i1, i2, i3, i4);
          } else {
            HeaderAcceptedAt(line, i, i1, i2, i3);
            HeaderAcceptedInSuffix(line, i, i1, i2, i3);
          }
        }
      }
    }
  }

  /** A pair line without '=' after the key, moved into the suffix t of line from i. */
  lemma EntryOperatorShifted(t: CString, i: nat, i1: nat, i2: nat)
    requires i <= i1 <= i2 <= i + |t| && i < i + |t|
    requires Span(t, 0, IsSpace) == 0 && Span(t, 0, IsAlnum) == i1 - i
    requires Span(t, i1 - i, IsSpace) == i2 - i
    requires i2 == i + |t| || t[i2 - i] != '='
    ensures ParseKeyValue(t) == Err(EBADMSG)
  {
    EntryRejectedOperator(t, 0, i1 - i, i2 - i);
  }

  /** A pair line without '=' after the key, seen from its first non-blank: still rejected. */
  lemma EntryOperatorInSuffix(line: CString, i: nat, i1: nat, i2: nat)
    requires i <= i1 <= i2 <= |line| && i < |line|
    requires Span(line, 0, IsSpace) == i && Span(line, i, IsAlnum) == i1
    requires Span(line, i1, IsSpace) == i2
    requires i2 == |line| || line[i2] != '='
    ensures ParseKeyValue(Slice(line, i, |line|)) == Err(EBADMSG)
  {
    var t := Slice(line, i, |line|);
    FirstNonBlank(line, i);
    SpanInSuffix(line, t, i, 0, i, IsAlnum);
    SpanMoved(line, t, i, i1, i2, IsSpace);
    assert i2 < |line| ==> t[i2 - i] == line[i2];
    EntryOperatorShifted(t, i, i1, i2);
  }

  /** A pair line that ends after '=', moved into the suffix t of line from i. */
  lemma EntryNoValueShifted(t: CString, i: nat, i1: nat, i2: nat)
    requires i <= i1 <= i2 < i + |t| && t[i2 - i] == '='
    requires Span(t, 0, IsSpace) == 0 && Span(t, 0, IsAlnum) == i1 - i
    requires Span(t, i1 - i, IsSpace) == i2 - i && Span(t, (i2 + 1) - i, IsSpace) == |t|
    ensures ParseKeyValue(t) == Err(EBADMSG)
  {
    EntryRejectedNoValue(t, 0, i1 - i, i2 - i);
  }

  /** A pair line that ends after '=', seen from its first non-blank: still rejected. */
  lemma EntryNoValueInSuffix(line: CString, i: nat, i1: nat, i2: nat)
    requires i <= i1 <= i2 < |line| && line[i2] == '='
    requires Span(line, 0, IsSpace) == i && Span(line, i, IsAlnum) == i1
    requires Span(line, i1, IsSpace) == i2 && Span(line, i2 + 1, IsSpace) == |line|
    ensures ParseKeyValue(Slice(line, i, |line|)) == Err(EBADMSG)
  {
    var t := Slice(line, i, |line|);
    FirstNonBlank(line, i);
    SpanInSuffix(line, t, i, 0, i, IsAlnum);
    SpanMoved(line, t, i, i1, i2, IsSpace);
    SpanMoved(line, t, i, i2 + 1, |line|, IsSpace);
    assert t[i2 - i] == line[i2];
    EntryNoValueShifted(t, i, i1, i2);
  }

  /** A pair line with an empty run or text after the value, moved into the suffix t of line from i. */
  lemma EntryTailShifted(t: CString, i: nat, i1: nat, i2: nat, i3: nat, i4: nat, i5: nat)
    requires i <= i1 <= i2 < i3 <= i4 <= i5 <= i + |t| && i < i + |t| && i3 < i + |t| && t[i2 - i] == '='
    requires Span(t, 0, IsSpace) == 0 && Span(t, 0, IsAlnum) == i1 - i
    requires Span(t, i1 - i, IsSpace) == i2 - i && Span(t, (i2 + 1) - i, IsSpace) == i3 - i
    requires Span(t, i3 - i, IsValueChar) == i4 - i && Span(t, i4 - i, IsSpace) == i5 - i
    requires i5 < i + |t| || i == i1 || i3 == i4
    ensures ParseKeyValue(t) == Err(EBADMSG)
  {
    EntryRejectedAt(t, 0, i1 - i, i2 - i, i3 - i, i4 - i, i5 - i);
  }

  /** A pair line with an empty run or text after the value, seen from its first non-blank: still rejected. */
  lemma EntryTailInSuffix(line: CString, i: nat, i1: nat, i2: nat, i3: nat, i4: nat, i5: nat)
    requires i <= i1 <= i2 < i3 <= i4 <= i5 <= |line| && i < |line| && i3 < |line| && line[i2] == '='
    requires Span(line, 0, IsSpace) == i && Span(line, i, IsAlnum) == i1
    requires Span(line, i1, IsSpace) == i2 && Span(line, i2 + 1, IsSpace) == i3
    requires Span(line, i3, IsValueChar) == i4 && Span(line, i4, IsSpace) == i5
    requires i5 < |line| || i == i1 || i3 == i4
    ensures ParseKeyValue(Slice(line, i, |line|)) == Err(EBADMSG)
  {
    var t := Slice(line, i, |line|);
    FirstNonBlank(line, i);
    SpanInSuffix(line, t, i, 0, i, IsAlnum);
    SpanMoved(line, t, i, i1, i2, IsSpace);
    SpanMoved(line, t, i, i2 + 1, i3, IsSpace);
    SpanMoved(line, t, i, i3, i4, IsValueChar);
    SpanMoved(line, t, i, i4, i5, IsSpace);
    assert t[i2 - i] == line[i2];
    EntryTailShifted(t, i, i1, i2, i3, i4, i5);
  }

  /** The cursor positions of an accepted pair line, moved into the suffix t of line from i. */
  lemma EntryAcceptedShifted(t: CString, i: nat, i1: nat, i2: nat, i3: nat, i4: nat, key: CString, value: CString)
    requires i < i1 <= i2 < i3 < i4 <= i + |t| && t[i2 - i] == '='
    requires Span(t, 0, IsSpace) == 0 && Span(t, 0, IsAlnum) == i1 - i
    requires Span(t, i1 - i, IsSpace) == i2 - i && Span(t, (i2 + 1) - i, IsSpace) == i3 - i
    requires Span(t, i3 - i, IsValueChar) == i4 - i && Span(t, i4 - i, IsSpace) == |t|
    requires t[..i1 - i] == key && t[i3 - i..i4 - i] == value
    ensures ParseKeyValue(t) == Ok((key, value))
  {
    EntryAcceptedAt(t, 0, i1 - i, i2 - i, i3 - i, i4 - i);
  }

  /** An accepted pair line seen from its first non-blank: the same key and value. */
  lemma EntryAcceptedInSuffix(line: CString, i: nat, i1: nat, i2: nat, i3: nat, i4: nat)
    requires i < i1 <= i2 < i3 < i4 <= |line| && line[i2] == '='
    requires Span(line, 0, IsSpace) == i && Span(line, i, IsAlnum) == i1
    requires Span(line, i1, IsSpace) == i2 && Span(line, i2 + 1, IsSpace) == i3
    requires Span(line, i3, IsValueChar) == i4 && Span(line, i4, IsSpace) == |line|
    ensures ParseKeyValue(Slice(line, i, |line|)) == Ok((Slice(line, i, i1), Slice(line, i3, i4)))
  {
    var t := Slice(line, i, |line|);
    FirstNonBlank(line, i);
    SpanInSuffix(line, t, i, 0, i, IsAlnum);
    SpanMoved(line, t, i, i1, i2, IsSpace);
    SpanMoved(line, t, i, i2 + 1, i3, IsSpace);
    SpanMoved(line, t, i, i3, i4, IsValueChar);
    SpanMoved(line, t, i, i4, |line|, IsSpace);
    assert t[i2 - i] == line[i2];
    SliceInSuffix(line, t, i, i, i1);
    SliceInSuffix(line, t, i, i3, i4);
    EntryAcceptedShifted(t, i, i1, i2, i3, i4, Slice(line, i, i1), Slice(line, i3, i4));
  }

  /** ini_cfg_parse_key_value skips leading blanks itself: it reads the same from the first non-blank. */
  lemma EntryFromFirstNonBlank(line: CString, i: nat)
    requires i == Span(line, 0, IsSpace)
    ensures ParseKeyValue(Slice(line, i, |line|)) == ParseKeyValue(line)
  {
    if i == |line| {
      FirstNonBlank(line, i);
      EntryRejectedBlank(line);
      EntryRejectedBlank(Slice(line, i, |line|));
    } else {
      var i1 := Span(line, i, IsAlnum);
      var i2 := Span(line, i1, IsSpace);
      if i2 == |line| || line[i2] != '=' {
        EntryRejectedOperator(line, i, i1, i2);
        EntryOperatorInSuffix(line, i, i1, i2);
      } else {
        var i3 := Span(line, i2 + 1, IsSpace);
        if i3 == |line| {
          EntryRejectedNoValue(line, i, i1, i2);
          EntryNoValueInSuffix(line, i, i1, i2);
        } else {
          var i4 := Span(line, i3, IsValueChar);
          var i5 := Span(line, i4, IsSpace);
          if i5 < |line| || i1 == i || i4 == i3 {
            EntryRejectedAt(line, i, i1, i2, i3, i4, i5);
            EntryTailInSuffix(line, i, i1, i2, i3, i4, i5);
          } else {
            EntryAcceptedAt(line, i, i1, i2, i3, i4);
            EntryAcceptedInSuffix(line, i, i1, i2, i3, i4);
          }
        }
      }
    }
  }
}
