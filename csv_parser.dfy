/**
 * The text-processing body of `parseCSV`: the export is split into lines on `\n`; the first
 * line names the columns, each later non-blank line is split into fields and becomes at most
 * one member. Fetching the export and the catch-all error handler are not part of the model:
 * the text itself is the input.
 */
module CsvParser {
  import opened Wrappers
  import opened Text
  import opened Tokenizer
  import opened Validators
  import opened Model
  import opened Classifier

  /** The byte-order mark removed from the header line. */
  const Bom: char := '\U{FEFF}'

  /**
   * The header cells: BOM removed, split on every comma (quotes are not honoured), trimmed,
   * lower-cased. Each cell has clean ends and no upper-case letter, so matching a lower-case
   * keyword against it ignores the letter case of the header.
   */
  function HeaderCells(header: string): (cells: seq<string>)
    ensures |cells| == Count(RemoveChar(header, Bom), ',') + 1
    ensures forall k :: 0 <= k < |cells| ==> Trimmed(cells[k]) && NoUpper(cells[k]) && ',' !in cells[k]
  {
    var parts := SplitOn(RemoveChar(header, Bom), ',');
    seq(|parts|, k requires 0 <= k < |parts| => LowerCell(parts[k]))
  }

  /** One header cell: trimmed, then lower-cased. */
  function LowerCell(part: string): (cell: string)
    ensures Trimmed(cell) && NoUpper(cell)
    ensures ',' !in part ==> ',' !in cell
  {
    ToLowerTrimmed(Trim(part));
    ToLower(Trim(part))
  }

  /** `k` is the first cell containing `keyword`, or -1 when no cell does. */
  predicate FirstContaining(cells: seq<string>, keyword: string, k: int) {
    && -1 <= k < |cells|
    && (k >= 0 ==> Contains(cells[k], keyword))
    && forall j :: 0 <= j < |cells| && (k == -1 || j < k) ==> !Contains(cells[j], keyword)
  }

  /** `findIndex`: the first cell that contains `keyword`, or -1 when none does. */
  function FindIndex(cells: seq<string>, keyword: string): (k: int)
    ensures FirstContaining(cells, keyword, k)
  {
    if cells == [] then -1
    else if Contains(cells[0], keyword) then 0
    else
      var k := FindIndex(cells[1..], keyword);
      if k == -1 then -1 else k + 1
  }

  /** The column of each field of interest; -1 when the header has no such column. */
  datatype Columns = Columns(name: int, image: int, linkedIn: int, email: int, role: int)

  /** Each column is the first header cell containing its keyword, or -1 when no cell does. */
  function LocateColumns(header: string): (cols: Columns)
    ensures var cells := HeaderCells(header);
      && FirstContaining(cells, "name", cols.name)
      && FirstContaining(cells, "image", cols.image)
      && FirstContaining(cells, "linkedin", cols.linkedIn)
      && FirstContaining(cells, "email", cols.email)
      && FirstContaining(cells, "role", cols.role)
  {
    var cells := HeaderCells(header);
    Columns(
      FindIndex(cells, "name"),
      FindIndex(cells, "image"),
      FindIndex(cells, "linkedin"),
      FindIndex(cells, "email"),
      FindIndex(cells, "role"))
  }

  /** `values[k]`: undefined for a missing column or a short row. */
  function Cell(values: seq<string>, k: int): Option<string> {
    if 0 <= k < |values| then Some(values[k]) else None
  }

  /**
   * The role: embedded line breaks and white-space runs made single spaces, trimmed. A missing
   * or blank cell gives `Member`; any other cell gives its own words joined by single spaces.
   */
  function RoleField(cell: Option<string>): (role: string)
    ensures role != [] && Collapsed(role)
    ensures cell.None? || Blank(cell.value) ==> role == "Member"
    ensures cell.Some? && !Blank(cell.value) ==> role == Join(Words(cell.value), ' ')
  {
    WordsCollapsed("Member", "");
    match cell
    case None => "Member"
    case Some(raw) =>
      var clean := ReplaceChar(raw, '\n', ' ');
      WordsReplaceWs(raw, '\n', ' ');
      WordsBlank(raw);
      WordsBlank(clean);
      var r := Squish(clean);
      if r == [] then "Member" else r
  }

  /** The LinkedIn link, kept exactly when its trimmed text starts with `http`. */
  function LinkedInField(cell: Option<string>): (link: Option<string>)
    ensures link.Some? <==> cell.Some? && StartsWith(Trim(cell.value), "http")
    ensures link.Some? ==> link.value == Trim(cell.value) && Trimmed(link.value)
  {
    match cell
    case None => None
    case Some(raw) =>
      var t := Trim(raw);
      if t != [] && StartsWith(t, "http") then Some(t) else None
  }

  /** The photo link, kept exactly when its trimmed text is a usable image URL. */
  function PhotoField(cell: Option<string>): (photo: Option<string>)
    ensures photo.Some? <==> cell.Some? && IsValidImageUrl(Trim(cell.value))
    ensures photo.Some? ==> photo.value == Trim(cell.value) && Trimmed(photo.value)
  {
    match cell
    case None => None
    case Some(raw) =>
      var t := Trim(raw);
      if t != [] && IsValidImageUrl(t) then Some(t) else None
  }

  /** The e-mail address, kept exactly when its trimmed text contains `@`. */
  function EmailField(cell: Option<string>): (email: Option<string>)
    ensures email.Some? <==> cell.Some? && '@' in Trim(cell.value)
    ensures email.Some? ==> email.value == Trim(cell.value) && Trimmed(email.value)
  {
    match cell
    case None => None
    case Some(raw) =>
      var t := Trim(raw);
      if t != [] && '@' in t then Some(t) else None
  }

  /** The row has a name cell and it is not blank. */
  predicate HasName(values: seq<string>, cols: Columns) {
    0 <= cols.name < |values| && !Blank(values[cols.name])
  }

  /**
   * The member described by the fields of one row: there is one exactly when the name cell is
   * present and not blank, and its name is the words of that cell joined by single spaces.
   */
  function RecordFromValues(values: seq<string>, cols: Columns): (record: Option<Member>)
    ensures record.Some? <==> HasName(values, cols)
    ensures record.Some? ==> record.value.name == Join(Words(values[cols.name]), ' ')
    ensures record.Some? ==>
      && record.value.role == RoleField(Cell(values, cols.role))
      && record.value.linkedIn == LinkedInField(Cell(values, cols.linkedIn))
      && record.value.profileImage == PhotoField(Cell(values, cols.image))
      && record.value.email == EmailField(Cell(values, cols.email))
    ensures record.Some? ==> WellFormed(record.value)
  {
    match Cell(values, cols.name)
    case None => None
    case Some(raw) =>
      var name := Squish(raw);
      if name == [] then None
      else
        var role := RoleField(Cell(values, cols.role));
        Some(Member(
          name,
          role,
          LinkedInField(Cell(values, cols.linkedIn)),
          PhotoField(Cell(values, cols.image)),
          EmailField(Cell(values, cols.email)),
          Some(CategorizeRole(role, name))))
  }

  /** A data line that yields a member: not blank, and its name cell is present and not blank. */
  predicate Kept(line: string, cols: Columns) {
    !Blank(line) && HasName(Tokenize(Trim(line)), cols)
  }

  /** One data line: skipped when blank after trimming, otherwise split and read as a record. */
  function ExtractRow(line: string, cols: Columns): (record: Option<Member>)
    ensures record.Some? <==> Kept(line, cols)
  {
    var t := Trim(line);
    TrimBlank(line);
    if t == [] then None else RecordFromValues(Tokenize(t), cols)
  }

  /** The members among `records`, in order. */
  function Somes(records: seq<Option<Member>>): (members: seq<Member>)
    ensures |members| <= |records|
  {
    if records == [] then []
    else
      var last := records[|records| - 1];
      Somes(records[..|records| - 1]) + (if last.Some? then [last.value] else [])
  }

  /** `xs.map(f)`. */
  function MapSeq<A, B>(xs: seq<A>, f: A -> B): (ys: seq<B>)
    ensures |ys| == |xs|
    ensures forall k :: 0 <= k < |xs| ==> ys[k] == f(xs[k])
  {
    seq(|xs|, k requires 0 <= k < |xs| => f(xs[k]))
  }

  lemma MapSlice<A, B>(xs: seq<A>, f: A -> B, i: int, j: int)
    requires 0 <= i <= j <= |xs|
    ensures MapSeq(xs, f)[i..j] == MapSeq(xs[i..j], f)
  {
  }

  lemma MapAppend<A, B>(a: seq<A>, b: seq<A>, f: A -> B)
    ensures MapSeq(a + b, f) == MapSeq(a, f) + MapSeq(b, f)
  {
    var ab, fa, fb := MapSeq(a + b, f), MapSeq(a, f), MapSeq(b, f);
    forall k | 0 <= k < |ab|
      ensures ab[k] == (fa + fb)[k]
    {
      if k < |a| {
        assert (a + b)[k] == a[k];
      } else {
        assert (a + b)[k] == b[k - |a|];
      }
    }
  }

  /** What each line of `lines` reads as, line by line. */
  function Records(lines: seq<string>, cols: Columns): (records: seq<Option<Member>>)
    ensures |records| == |lines|
  {
    MapSeq(lines, ReadLine(cols))
  }

  /** Reading one data line against the columns `cols`. */
  function ReadLine(cols: Columns): string -> Option<Member> {
    (line: string) => ExtractRow(line, cols)
  }

  /** The members read from `lines`, in line order. */
  function Rows(lines: seq<string>, cols: Columns): seq<Member> {
    Somes(Records(lines, cols))
  }

  /** The members of a whole export: nothing unless there is a header line and at least one more line. */
  function ParsedMembers(text: string): seq<Member> {
    var lines := SplitOn(text, '\n');
    if |lines| < 2 then [] else Rows(lines[1..], LocateColumns(lines[0]))
  }

  /** What every member the parser produces satisfies. */
  predicate WellFormed(m: Member) {
    && m.name != [] && Collapsed(m.name)
    && m.role != [] && Collapsed(m.role)
    && (m.linkedIn.Some? ==> Trimmed(m.linkedIn.value) && StartsWith(m.linkedIn.value, "http"))
    && (m.email.Some? ==> Trimmed(m.email.value) && '@' in m.email.value)
    && (m.profileImage.Some? ==> Trimmed(m.profileImage.value) && IsValidImageUrl(m.profileImage.value))
    && m.category == Some(CategorizeRole(m.role, m.name))
  }

  /** `parseCSV` on the text of the export, as a loop over its lines. */
  method ParseCsv(text: string) returns (members: seq<Member>)
    ensures members == ParsedMembers(text)
    ensures forall k :: 0 <= k < |members| ==> WellFormed(members[k])
    ensures |members| <= Count(text, '\n')
  {
    members := [];
    var lines := SplitOn(text, '\n');
    if |lines| < 2 {
      return;
    }
    var cols := LocateColumns(lines[0]);
    ghost var records := Records(lines[1..], cols);
    for i := 1 to |lines|
      invariant members == Somes(records[..i - 1])
    {
      SomesStep(records, i - 1);
      var line := Trim(lines[i]);
      if line == [] {
        continue;
      }
      var values := ParseLine(line);
      var record := RecordFromValues(values, cols);
      if record.Some? {
        members := members + [record.value];
      }
    }
    WholePrefix(records);
    ParsedMembersWellFormed(text);
    ParsedMembersBound(text);
  }

  lemma SomesStep(records: seq<Option<Member>>, i: int)
    requires 0 <= i < |records|
    ensures Somes(records[..i + 1]) == Somes(records[..i]) + (if records[i].Some? then [records[i].value] else [])
  {
    assert records[..i + 1][..i] == records[..i];
  }

  lemma WholePrefix(records: seq<Option<Member>>)
    ensures records[..|records|] == records
  {
  }

  lemma {:induction false} SomesWellFormed(records: seq<Option<Member>>)
    requires forall k :: 0 <= k < |records| && records[k].Some? ==> WellFormed(records[k].value)
    ensures forall k :: 0 <= k < |Somes(records)| ==> WellFormed(Somes(records)[k])
    decreases |records|
  {
    if records != [] {
      SomesWellFormed(records[..|records| - 1]);
    }
  }

  /** Every member read from an export is well formed. */
  lemma ParsedMembersWellFormed(text: string)
    ensures forall k :: 0 <= k < |ParsedMembers(text)| ==> WellFormed(ParsedMembers(text)[k])
  {
    var lines := SplitOn(text, '\n');
    if |lines| >= 2 {
      SomesWellFormed(Records(lines[1..], LocateColumns(lines[0])));
    }
  }

  /** At most one member per line after the header. */
  lemma ParsedMembersBound(text: string)
    ensures |ParsedMembers(text)| <= |SplitOn(text, '\n')| - 1
    ensures |ParsedMembers(text)| <= Count(text, '\n')
  {
  }

  /** The number of elements of `xs` that satisfy `p`. */
  function CountWhere<A>(xs: seq<A>, p: A -> bool): nat {
    if xs == [] then 0 else CountWhere(xs[..|xs| - 1], p) + (if p(xs[|xs| - 1]) then 1 else 0)
  }

  /** Reading with `f` yields one value per element satisfying `p`, when `p` says exactly where `f` yields one. */
  lemma {:induction false} SomesMapCount<A>(xs: seq<A>, f: A -> Option<Member>, p: A -> bool)
    requires forall k :: 0 <= k < |xs| ==> f(xs[k]).Some? == p(xs[k])
    ensures |Somes(MapSeq(xs, f))| == CountWhere(xs, p)
    decreases |xs|
  {
    if xs != [] {
      SomesMapCount(xs[..|xs| - 1], f, p);
      MapSlice(xs, f, 0, |xs| - 1);
    }
  }

  /** An element on which `f` yields a value contributes it between the values of the elements around it. */
  lemma SomesMapSplit<A>(xs: seq<A>, f: A -> Option<Member>, k: int)
    requires 0 <= k < |xs| && f(xs[k]).Some?
    ensures Somes(MapSeq(xs, f)) == Somes(MapSeq(xs[..k], f)) + [f(xs[k]).value] + Somes(MapSeq(xs[k + 1..], f))
  {
    assert MapSeq(xs, f)[k] == f(xs[k]);
    SomesSplit(MapSeq(xs, f), k);
    MapSlice(xs, f, 0, k);
    MapSlice(xs, f, k + 1, |xs|);
    assert xs[k + 1..|xs|] == xs[k + 1..];
    assert MapSeq(xs, f)[k + 1..|xs|] == MapSeq(xs, f)[k + 1..];
  }

  lemma SomesSplit(records: seq<Option<Member>>, k: int)
    requires 0 <= k < |records| && records[k].Some?
    ensures Somes(records) == Somes(records[..k]) + [records[k].value] + Somes(records[k + 1..])
  {
    var before, here, after := records[..k], [records[k]], records[k + 1..];
    assert records == before + (here + after);
    SomesAppend(before, here + after);
    SomesAppend(here, after);
    assert Somes(here) == [records[k].value] by {
      assert here[..0] == [];
    }
  }

  /** Whether one data line yields a member, against the columns `cols`. */
  function KeptLine(cols: Columns): string -> bool {
    (line: string) => Kept(line, cols)
  }

  /** The number of lines of `lines` that yield a member. */
  function KeptCount(lines: seq<string>, cols: Columns): nat {
    CountWhere(lines, KeptLine(cols))
  }

  /** Exactly one member per kept line: no kept line is lost and no other line adds one. */
  lemma RowsCount(lines: seq<string>, cols: Columns)
    ensures |Rows(lines, cols)| == KeptCount(lines, cols)
  {
    forall k | 0 <= k < |lines|
      ensures ReadLine(cols)(lines[k]).Some? == KeptLine(cols)(lines[k])
    {
    }
    SomesMapCount(lines, ReadLine(cols), KeptLine(cols));
  }

  /** A kept line contributes its member after those of the lines before it and before those of the lines after it. */
  lemma KeptLineContributes(lines: seq<string>, cols: Columns, k: int)
    requires 0 <= k < |lines| && Kept(lines[k], cols)
    ensures Rows(lines, cols) == Rows(lines[..k], cols) + [ExtractRow(lines[k], cols).value] + Rows(lines[k + 1..], cols)
  {
    assert ReadLine(cols)(lines[k]) == ExtractRow(lines[k], cols);
    SomesMapSplit(lines, ReadLine(cols), k);
  }

  /** The members of an export: one for each kept line after the header. */
  lemma ParsedMembersCount(text: string)
    requires |SplitOn(text, '\n')| >= 2
    ensures var lines := SplitOn(text, '\n');
      |ParsedMembers(text)| == KeptCount(lines[1..], LocateColumns(lines[0]))
  {
    var lines := SplitOn(text, '\n');
    RowsCount(lines[1..], LocateColumns(lines[0]));
  }

  /** Reading two runs of records one after the other gives their members one after the other. */
  lemma {:induction false} SomesAppend(a: seq<Option<Member>>, b: seq<Option<Member>>)
    ensures Somes(a + b) == Somes(a) + Somes(b)
    decreases |b|
  {
    if b == [] {
      assert a + b == a;
    } else {
      var b' := b[..|b| - 1];
      assert (a + b)[..|a + b| - 1] == a + b';
      assert (a + b)[|a + b| - 1] == b[|b| - 1];
      SomesAppend(a, b');
    }
  }

  /** Reading two runs of lines one after the other gives their members one after the other. */
  lemma RowsAppend(a: seq<string>, b: seq<string>, cols: Columns)
    ensures Rows(a + b, cols) == Rows(a, cols) + Rows(b, cols)
  {
    RecordsAppend(a, b, cols);
    SomesAppend(Records(a, cols), Records(b, cols));
  }

  lemma RecordsAppend(a: seq<string>, b: seq<string>, cols: Columns)
    ensures Records(a + b, cols) == Records(a, cols) + Records(b, cols)
  {
    MapAppend(a, b, ReadLine(cols));
  }

  /** Text with no line break (so no data line) gives no members. */
  lemma SingleLineGivesNothing(text: string)
    requires '\n' !in text
    ensures ParsedMembers(text) == []
  {
    if Count(text, '\n') != 0 {
      CountPositive(text, '\n');
    }
  }

  lemma {:induction false} CountPositive(s: string, x: char)
    requires Count(s, x) != 0
    ensures x in s
    decreases |s|
  {
    if s[0] != x {
      CountPositive(s[1..], x);
    }
  }

  lemma {:induction false} NoSomes(records: seq<Option<Member>>)
    requires forall k :: 0 <= k < |records| ==> records[k].None?
    ensures Somes(records) == []
    decreases |records|
  {
    if records != [] {
      NoSomes(records[..|records| - 1]);
    }
  }

  /** Without a name column no line yields a member. */
  lemma NoNameColumnRows(lines: seq<string>, cols: Columns)
    requires cols.name == -1
    ensures Rows(lines, cols) == []
  {
    var records := Records(lines, cols);
    forall k | 0 <= k < |records|
      ensures records[k].None?
    {
      assert records[k] == ExtractRow(lines[k], cols);
    }
    NoSomes(records);
  }

  /** No header cell mentions `name`. */
  predicate NoNameCell(header: string) {
    forall j :: 0 <= j < |HeaderCells(header)| ==> !Contains(HeaderCells(header)[j], "name")
  }

  lemma NoNameColumn(header: string)
    requires NoNameCell(header)
    ensures LocateColumns(header).name == -1
  {
  }

  /** A header with no cell containing `name` gives no members. */
  lemma NoNameHeaderGivesNothing(text: string)
    requires NoNameCell(SplitOn(text, '\n')[0])
    ensures ParsedMembers(text) == []
  {
    NoNameColumn(SplitOn(text, '\n')[0]);
    NoNameColumnGivesNothing(text);
  }

  lemma NoNameColumnGivesNothing(text: string)
    requires LocateColumns(SplitOn(text, '\n')[0]).name == -1
    ensures ParsedMembers(text) == []
  {
    var lines := SplitOn(text, '\n');
    if |lines| >= 2 {
      NoNameColumnRows(lines[1..], LocateColumns(lines[0]));
    }
  }

  /** A line that is blank after trimming is skipped. */
  lemma BlankRowSkipped(line: string, cols: Columns)
    requires Trim(line) == []
    ensures ExtractRow(line, cols) == None
  {
  }

  /** Every line is blank after trimming. */
  predicate AllBlank(lines: seq<string>) {
    forall k :: 0 <= k < |lines| ==> Trim(lines[k]) == []
  }

  /** Lines that are blank after trimming yield no members. */
  lemma BlankLinesGiveNothing(lines: seq<string>, cols: Columns)
    requires AllBlank(lines)
    ensures Rows(lines, cols) == []
  {
    var records := Records(lines, cols);
    forall k | 0 <= k < |records|
      ensures records[k].None?
    {
      BlankRowSkipped(lines[k], cols);
    }
    NoSomes(records);
  }

  /** A header followed only by lines that are blank after trimming gives no members. */
  lemma BlankBodyGivesNothing(text: string)
    requires AllBlank(SplitOn(text, '\n')[1..])
    ensures ParsedMembers(text) == []
  {
    var lines := SplitOn(text, '\n');
    if |lines| >= 2 {
      BlankLinesGiveNothing(lines[1..], LocateColumns(lines[0]));
    }
  }

  // An export with one data line, read end to end: general steps first, then the literal text.

  /** Two parts free of the separator, joined by it, split back into those two parts. */
  lemma SplitTwo(a: string, b: string, sep: char)
    requires sep !in a && sep !in b
    ensures SplitOn(a + [sep] + b, sep) == [a, b]
  {
    var parts := [a, b];
    assert parts[1..] == [b];
    SplitOnJoin(parts, sep);
  }

  /** A header of clean lower-case cells without commas or BOM, joined by commas, reads back as those cells. */
  lemma HeaderCellsJoin(cells: seq<string>)
    requires |cells| >= 1
    requires forall k :: 0 <= k < |cells| ==>
      Trimmed(cells[k]) && NoUpper(cells[k]) && ',' !in cells[k] && Bom !in cells[k]
    ensures HeaderCells(Join(cells, ',')) == cells
  {
    var header := Join(cells, ',');
    JoinFree(cells, ',', Bom);
    RemoveCharAbsent(header, Bom);
    SplitOnJoin(cells, ',');
    forall k | 0 <= k < |cells|
      ensures LowerCell(cells[k]) == cells[k]
    {
      TrimNoop(cells[k]);
      ToLowerNoop(cells[k]);
    }
  }

  /** A header of two cells without commas or BOM: each cell is trimmed and lower-cased. */
  lemma HeaderCellsOfTwo(a: string, b: string)
    requires ',' !in a && ',' !in b && Bom !in a && Bom !in b
    ensures HeaderCells(a + [','] + b) == [ToLower(Trim(a)), ToLower(Trim(b))]
  {
    var header := a + [','] + b;
    assert Bom !in header;
    RemoveCharAbsent(header, Bom);
    SplitTwo(a, b, ',');
  }

  /** A header of two clean lower-case cells, without BOM, comma-separated. */
  lemma HeaderCellsTwo(a: string, b: string)
    requires ',' !in a && ',' !in b && Bom !in a && Bom !in b
    requires Trimmed(a) && Trimmed(b) && NoUpper(a) && NoUpper(b)
    ensures HeaderCells(a + [','] + b) == [a, b]
  {
    HeaderCellsOfTwo(a, b);
    TrimNoop(a);
    TrimNoop(b);
    ToLowerNoop(a);
    ToLowerNoop(b);
  }

  /** A keyword with a character no cell has is found nowhere. */
  lemma FindIndexAbsent(cells: seq<string>, keyword: string, c: char)
    requires c in keyword && forall j :: 0 <= j < |cells| ==> c !in cells[j]
    ensures FindIndex(cells, keyword) == -1
  {
    var k := FindIndex(cells, keyword);
    if k >= 0 {
      ContainsChars(cells[k], keyword, c);
    }
  }

  /** The first cell that starts with the keyword is found when no cell before it has character `c` of the keyword. */
  lemma FindIndexAt(cells: seq<string>, keyword: string, k: int, c: char)
    requires 0 <= k < |cells| && StartsWith(cells[k], keyword)
    requires c in keyword && forall j :: 0 <= j < k ==> c !in cells[j]
    ensures FindIndex(cells, keyword) == k
  {
    var i := FindIndex(cells, keyword);
    if i >= 0 && i < k {
      ContainsChars(cells[i], keyword, c);
    }
  }

  lemma ExampleColumns(cells: seq<string>)
    requires cells == ["name", "role"]
    ensures FindIndex(cells, "name") == 0 && FindIndex(cells, "role") == 1
    ensures FindIndex(cells, "image") == -1 && FindIndex(cells, "linkedin") == -1 && FindIndex(cells, "email") == -1
  {
    FindIndexAt(cells, "name", 0, 'n');
    FindIndexAt(cells, "role", 1, 'r');
    FindIndexAbsent(cells, "image", 'i');
    FindIndexAbsent(cells, "linkedin", 'i');
    FindIndexAbsent(cells, "email", 'i');
  }

  lemma ExampleHeader(header: string)
    requires header == "name,role"
    ensures LocateColumns(header) == Columns(0, -1, -1, -1, 1)
  {
    var a, b := header[..4], header[5..];
    assert a == "name" && b == "role";
    assert header == a + [','] + b;
    HeaderCellsTwo(a, b);
    ExampleColumns(HeaderCells(header));
  }

  /** A capitalised header finds its columns as the lower-case one does: the match ignores letter case. */
  lemma CapitalisedHeader(header: string)
    requires header == "Name,Role"
    ensures LocateColumns(header) == Columns(0, -1, -1, -1, 1)
  {
    var a, b := header[..4], header[5..];
    assert a == "Name" && b == "Role";
    assert header == a + [','] + b;
    HeaderCellsOfTwo(a, b);
    NameRoleLower(a, b);
    ExampleColumns(HeaderCells(header));
  }

  lemma NameRoleLower(a: string, b: string)
    requires a == "Name" && b == "Role"
    ensures ToLower(Trim(a)) == "name" && ToLower(Trim(b)) == "role"
  {
    TrimNoop(a);
    TrimNoop(b);
  }

  /** A quote-free line of two comma-separated fields. */
  lemma TokenizeTwo(a: string, b: string)
    requires ',' !in a && ',' !in b && '"' !in a && '"' !in b
    ensures Tokenize(a + [','] + b) == [a, b]
  {
    QuoteFreeLine(a + [','] + b);
    SplitTwo(a, b, ',');
  }

  /** A two-cell row of a name and a role yields the words of each, and no optional field. */
  lemma RecordOfNameAndRole(values: seq<string>, cols: Columns)
    requires |values| == 2 && cols == Columns(0, -1, -1, -1, 1)
    requires !Blank(values[0]) && !Blank(values[1])
    ensures var name, role := Join(Words(values[0]), ' '), Join(Words(values[1]), ' ');
      RecordFromValues(values, cols) == Some(Member(name, role, None, None, None, Some(CategorizeRole(role, name))))
  {
  }

  /** A trimmed, quote-free line `name,role` of two cells already in normal form reads as that name and role. */
  lemma RowOfNameAndRole(line: string, name: string, role: string, cols: Columns)
    requires line == name + [','] + role && cols == Columns(0, -1, -1, -1, 1)
    requires ',' !in name && ',' !in role && '"' !in name && '"' !in role
    requires Trimmed(line) && !Blank(name) && !Blank(role)
    requires Join(Words(name), ' ') == name && Join(Words(role), ' ') == role
    ensures ExtractRow(line, cols) == Some(Member(name, role, None, None, None, Some(CategorizeRole(role, name))))
  {
    TokenizeTwo(name, role);
    TrimNoop(line);
    RecordOfNameAndRole([name, role], cols);
  }

  /** Text of exactly two lines reads as the one member of its second line, if any. */
  lemma OneDataLine(text: string, header: string, line: string)
    requires SplitOn(text, '\n') == [header, line]
    ensures ParsedMembers(text) == Rows([line], LocateColumns(header))
  {
    assert SplitOn(text, '\n')[1..] == [line];
  }

  lemma RowsOfOne(line: string, cols: Columns)
    ensures Rows([line], cols) == if ExtractRow(line, cols).Some? then [ExtractRow(line, cols).value] else []
  {
    var records := Records([line], cols);
    assert records == [ExtractRow(line, cols)];
    assert records[..0] == [];
  }

  /**
   * The export `name,role` then one line `name,role` of a name and a role that are already in
   * normal form (single spaces between words, none at the ends) and free of commas, quotes and
   * line breaks: it reads as exactly that one member, with no optional field.
   */
  lemma OneMemberExport(name: string, role: string)
    requires name != [] && role != [] && Collapsed(name) && Collapsed(role)
    requires ',' !in name && ',' !in role && '"' !in name && '"' !in role && '\n' !in name && '\n' !in role
    ensures ParsedMembers("name,role" + ['\n'] + name + [','] + role)
         == [Member(name, role, None, None, None, Some(CategorizeRole(role, name)))]
  {
    var header, line := "name,role", name + [','] + role;
    var text := header + ['\n'] + line;
    assert '\n' !in header && '\n' !in line;
    assert text == "name,role" + ['\n'] + name + [','] + role;
    SplitTwo(header, line, '\n');
    OneDataLine(text, header, line);
    ExampleHeader(header);
    var cols := LocateColumns(header);
    CollapsedIsJoin(name);
    CollapsedIsJoin(role);
    assert !IsWs(name[0]) && !IsWs(role[0]);
    assert line[0] == name[0] && line[|line| - 1] == role[|role| - 1];
    RowOfNameAndRole(line, name, role, cols);
    RowsOfOne(line, cols);
  }

  /** `Jane Doe` and `Faculty Advisor` are in normal form. */
  lemma JaneDoeFacultyAdvisor(name: string, role: string)
    requires name == "Jane Doe" && role == "Faculty Advisor"
    ensures name != [] && role != [] && Collapsed(name) && Collapsed(role)
  {
    assert name == name[..4] + " " + name[5..] && role == role[..7] + " " + role[8..];
    WordsCollapsed(name[..4], name[5..]);
    WordsCollapsed(role[..7], role[8..]);
  }

  /** Neither has a comma, a quote or a line break. */
  lemma JaneDoeFacultyAdvisorPlain(name: string, role: string)
    requires name == "Jane Doe" && role == "Faculty Advisor"
    ensures ',' !in name && ',' !in role && '"' !in name && '"' !in role && '\n' !in name && '\n' !in role
  {
  }

  /** `name,role` then `Jane Doe,Faculty Advisor` gives one Faculty member with no optional fields. */
  lemma ExampleExport(name: string, role: string)
    requires name == "Jane Doe" && role == "Faculty Advisor"
    ensures ParsedMembers("name,role" + ['\n'] + name + [','] + role)
         == [Member(name, role, None, None, None, Some(Faculty))]
  {
    JaneDoeFacultyAdvisor(name, role);
    JaneDoeFacultyAdvisorPlain(name, role);
    OneMemberExport(name, role);
    FacultyAdvisorExample(role, name);
  }
}
