/** The linker map reader: which object files each static library contributed
    to the final executable, taken from the "Publics by Value" symbol listing
    (VSProjectFixer/Program.cs:1091-1134). */
module MapFile {
  import opened Results
  import opened Text

  /** The line that opens the symbol listing; it is matched as a prefix. */
  const Header := "  Address         Publics by Value"

  /** The executable itself: objects listed without a library are filed under it. */
  const MainProject := "A51"

  /** Library name to the set of object file names it needs. */
  type LibraryTable = map<string, set<string>>

  /** What one record line of the listing contributes. */
  datatype Contribution = Skip | Main(obj: string) | Library(lib: string, obj: string)

  /** The space-separated fields of a line; only ' ' separates, a tab does not. */
  function Fields(line: string): seq<string> {
    RemoveEmpty(Split(line, ' '))
  }

  /** A record line with at least four fields names `lib:obj` (or a bare `obj`)
      in its last field; shorter lines contribute nothing. */
  function Classify(line: string): Contribution {
    var fields := Fields(line);
    if |fields| < 4 then Skip else ClassifyLast(fields[|fields| - 1])
  }

  /** The last field of a record: `<absolute>` symbols contribute nothing, and
      only the first two `:`-separated parts are used. */
  function ClassifyLast(last: string): Contribution {
    if last == "<absolute>" then Skip
    else
      var parts := Split(last, ':');
      if |parts| == 1 then Main(parts[0]) else Library(parts[0], parts[1])
  }

  /** One record added to the table. */
  function AddRecord(table: LibraryTable, line: string): LibraryTable
    requires MainProject in table
  {
    match Classify(line)
    case Skip => table
    case Main(obj) => table[MainProject := table[MainProject] + {obj}]
    case Library(lib, obj) => table[lib := (if lib in table then table[lib] else {}) + {obj}]
  }

  /** The records after the header, read in order. */
  function AddRecords(table: LibraryTable, lines: seq<string>): (r: LibraryTable)
    requires MainProject in table
    ensures MainProject in r
    decreases |lines|
  {
    if |lines| == 0 then table
    else AddRecord(AddRecords(table, lines[..|lines| - 1]), lines[|lines| - 1])
  }

  /** Position of the first line that starts with the header. */
  function HeaderIndex(lines: seq<string>): (k: Option<nat>)
    ensures k.Some? ==> k.value < |lines| && StartsWith(lines[k.value], Header)
                        && forall i :: 0 <= i < k.value ==> !StartsWith(lines[i], Header)
    ensures k.None? ==> forall i :: 0 <= i < |lines| ==> !StartsWith(lines[i], Header)
  {
    if |lines| == 0 then None
    else if StartsWith(lines[0], Header) then Some(0)
    else match HeaderIndex(lines[1..])
      case None => None
      case Some(k) => Some(k + 1)
  }

  /** BuildLibObjListFromMapFile on the lines of the map file. Running out of
      lines before the header reads a null line and throws. */
  function BuildLibObjList(lines: seq<string>): (r: Result<LibraryTable>)
    ensures r.Success? <==> exists i :: 0 <= i < |lines| && StartsWith(lines[i], Header)
    ensures r.Success? ==> MainProject in r.value
  {
    match HeaderIndex(lines)
    case None => Failure(NullReference)
    case Some(h) => Success(AddRecords(map[MainProject := {}], lines[h + 1..]))
  }

  // ---------------------------------------------------------------------------
  // What the table holds
  // ---------------------------------------------------------------------------

  /** A line files `obj` under `lib`: as a library record, or as a bare object
      when `lib` is the main project. */
  predicate Files(line: string, lib: string, obj: string) {
    Classify(line) == Library(lib, obj) || (lib == MainProject && Classify(line) == Main(obj))
  }

  /** A line creates the entry for `lib`. */
  predicate Names(line: string, lib: string) {
    Classify(line).Library? && Classify(line).lib == lib
  }

  /** Some line of `lines` creates the entry for `lib`. */
  ghost predicate NamedIn(lines: seq<string>, lib: string) {
    exists i :: 0 <= i < |lines| && Names(lines[i], lib)
  }

  /** Some line of `lines` files `obj` under `lib`. */
  ghost predicate FiledIn(lines: seq<string>, lib: string, obj: string) {
    exists i :: 0 <= i < |lines| && Files(lines[i], lib, obj)
  }

  lemma {:induction false} NamedInSnoc(front: seq<string>, last: string, lib: string)
    ensures NamedIn(front + [last], lib) <==> NamedIn(front, lib) || Names(last, lib)
  {
    var lines := front + [last];
    if NamedIn(lines, lib) && !Names(last, lib) {
      var i :| 0 <= i < |lines| && Names(lines[i], lib);
      assert lines[i] == front[i];
    }
    if NamedIn(front, lib) {
      var i :| 0 <= i < |front| && Names(front[i], lib);
      assert lines[i] == front[i];
    }
    if Names(last, lib) {
      assert lines[|front|] == last;
    }
  }

  lemma {:induction false} FiledInSnoc(front: seq<string>, last: string, lib: string, obj: string)
    ensures FiledIn(front + [last], lib, obj) <==> FiledIn(front, lib, obj) || Files(last, lib, obj)
  {
    var lines := front + [last];
    if FiledIn(lines, lib, obj) && !Files(last, lib, obj) {
      var i :| 0 <= i < |lines| && Files(lines[i], lib, obj);
      assert lines[i] == front[i];
    }
    if FiledIn(front, lib, obj) {
      var i :| 0 <= i < |front| && Files(front[i], lib, obj);
      assert lines[i] == front[i];
    }
    if Files(last, lib, obj) {
      assert lines[|front|] == last;
    }
  }

  /** Every key of the table is an initial key or a library some record names. */
  lemma {:induction false} AddRecordsKeys(table: LibraryTable, lines: seq<string>)
    requires MainProject in table
    ensures forall lib :: lib in AddRecords(table, lines) <==> lib in table || NamedIn(lines, lib)
    decreases |lines|
  {
    if |lines| > 0 {
      var front := lines[..|lines| - 1];
      var last := lines[|lines| - 1];
      assert lines == front + [last];
      AddRecordsKeys(table, front);
      forall lib ensures NamedIn(lines, lib) <==> NamedIn(front, lib) || Names(last, lib) {
        NamedInSnoc(front, last, lib);
      }
    }
  }

  /** Every object under a key was there initially or was filed there by some record. */
  lemma {:induction false} AddRecordsObjects(table: LibraryTable, lines: seq<string>)
    requires MainProject in table
    ensures forall lib, obj :: lib in AddRecords(table, lines) && obj in AddRecords(table, lines)[lib] <==>
              (lib in table && obj in table[lib]) || FiledIn(lines, lib, obj)
    decreases |lines|
  {
    if |lines| > 0 {
      var front := lines[..|lines| - 1];
      var last := lines[|lines| - 1];
      assert lines == front + [last];
      AddRecordsObjects(table, front);
      forall lib, obj ensures FiledIn(lines, lib, obj) <==> FiledIn(front, lib, obj) || Files(last, lib, obj) {
        FiledInSnoc(front, last, lib, obj);
      }
    }
  }

  /** The parsed table: the main project is always a key; any other key is a
      library that some record after the header names; an object is listed
      under a library exactly when a record after the header files it there. */
  lemma {:induction false} TableContents(lines: seq<string>, h: nat)
    requires h < |lines| && StartsWith(lines[h], Header)
    requires forall i :: 0 <= i < h ==> !StartsWith(lines[i], Header)
    ensures BuildLibObjList(lines).Success?
    ensures var t := BuildLibObjList(lines).value;
      && (forall lib :: lib in t <==> lib == MainProject || NamedIn(lines[h + 1..], lib))
      && (forall lib, obj :: lib in t && obj in t[lib] <==> FiledIn(lines[h + 1..], lib, obj))
  {
    assert HeaderIndex(lines) == Some(h);
    AddRecordsKeys(map[MainProject := {}], lines[h + 1..]);
    AddRecordsObjects(map[MainProject := {}], lines[h + 1..]);
  }

  // ---------------------------------------------------------------------------
  // Record lines built from their fields
  // ---------------------------------------------------------------------------

  /** A field of a record line: non-empty and free of spaces. */
  predicate IsField(f: string) {
    f != "" && ' ' !in f
  }

  /** Splitting a line written as space-separated fields gives the fields back. */
  lemma {:induction false} FieldsOfJoin(fields: seq<string>)
    requires |fields| > 0
    requires forall i :: 0 <= i < |fields| ==> IsField(fields[i])
    ensures Fields(Join(fields, ' ')) == fields
  {
    SplitJoin(fields, ' ');
  }

  /** A line of at least four fields is classified by its last field alone. */
  lemma {:induction false} RecordFields(front: seq<string>, last: string)
    requires |front| >= 3 && forall i :: 0 <= i < |front| ==> IsField(front[i])
    requires IsField(last)
    ensures Classify(Join(front + [last], ' ')) == ClassifyLast(last)
  {
    var fields := front + [last];
    assert forall i :: 0 <= i < |fields| ==> IsField(fields[i]) by {
      forall i | 0 <= i < |fields| ensures IsField(fields[i]) {
        if i < |front| { assert fields[i] == front[i]; }
      }
    }
    FieldsOfJoin(fields);
    assert fields[|fields| - 1] == last;
  }

  /** A last field `lib:obj[:more...]` files `obj` under `lib`; the library may
      even be called `<absolute>`, since only a last field that is exactly
      `<absolute>` is skipped. */
  lemma {:induction false} LibraryField(lib: string, obj: string, rest: seq<string>)
    requires ':' !in lib && ':' !in obj
    requires forall i :: 0 <= i < |rest| ==> ':' !in rest[i]
    ensures ClassifyLast(Join([lib, obj] + rest, ':')) == Library(lib, obj)
  {
    var parts := [lib, obj] + rest;
    var last := Join(parts, ':');
    assert last == lib + [':'] + Join(parts[1..], ':');
    assert last[|lib|] == ':';
    assert last != "<absolute>" by {
      assert ':' in last;
      assert ':' !in "<absolute>";
    }
    assert forall i :: 0 <= i < |parts| ==> ':' !in parts[i] by {
      forall i | 0 <= i < |parts| ensures ':' !in parts[i] {
        if i >= 2 { assert parts[i] == rest[i - 2]; }
      }
    }
    SplitJoin(parts, ':');
  }

  /** A record `address symbol rva+base ... lib:obj` files `obj` under `lib`,
      however many fields come before the last; any further `:part` of the last
      field is ignored. */
  lemma {:induction false} LibraryRecord(front: seq<string>, lib: string, obj: string, rest: seq<string>)
    requires |front| >= 3 && forall i :: 0 <= i < |front| ==> IsField(front[i])
    requires ':' !in lib && ':' !in obj
    requires forall i :: 0 <= i < |rest| ==> ':' !in rest[i]
    requires IsField(Join([lib, obj] + rest, ':'))
    ensures Classify(Join(front + [Join([lib, obj] + rest, ':')], ' ')) == Library(lib, obj)
  {
    RecordFields(front, Join([lib, obj] + rest, ':'));
    LibraryField(lib, obj, rest);
  }

  /** A record whose last field has no `:` files that object under the main project. */
  lemma {:induction false} MainRecord(front: seq<string>, obj: string)
    requires |front| >= 3 && forall i :: 0 <= i < |front| ==> IsField(front[i])
    requires IsField(obj) && ':' !in obj && obj != "<absolute>"
    ensures Classify(Join(front + [obj], ' ')) == Main(obj)
  {
    RecordFields(front, obj);
    SplitWithoutSeparator(obj, ':');
  }

  /** A record whose last field is exactly `<absolute>` contributes nothing. */
  lemma {:induction false} AbsoluteRecordSkipped(front: seq<string>)
    requires |front| >= 3 && forall i :: 0 <= i < |front| ==> IsField(front[i])
    ensures Classify(Join(front + ["<absolute>"], ' ')) == Skip
  {
    RecordFields(front, "<absolute>");
  }

  /** A line of at most three fields contributes nothing. */
  lemma {:induction false} ShortLineSkipped(fields: seq<string>)
    requires 0 < |fields| < 4 && forall i :: 0 <= i < |fields| ==> IsField(fields[i])
    ensures Classify(Join(fields, ' ')) == Skip
  {
    FieldsOfJoin(fields);
  }

  /** A separator other than `sep` never appears in a join of parts free of it. */
  lemma {:induction false} JoinKeepsOut(parts: seq<string>, sep: char, c: char)
    requires |parts| > 0 && c != sep
    requires forall i :: 0 <= i < |parts| ==> c !in parts[i]
    ensures c !in Join(parts, sep)
    decreases |parts|
  {
    if |parts| > 1 {
      JoinKeepsOut(parts[1..], sep, c);
    }
  }

  /** Fields separated by tabs are not separate: such a line is one field and is
      skipped, however many tab-separated fields it has. */
  lemma {:induction false} TabSeparatedLineSkipped(fields: seq<string>)
    requires |fields| > 0 && forall i :: 0 <= i < |fields| ==> IsField(fields[i])
    ensures Classify(Join(fields, '\t')) == Skip
  {
    var line := Join(fields, '\t');
    JoinKeepsOut(fields, '\t', ' ');
    SplitWithoutSeparator(line, ' ');
  }
}
