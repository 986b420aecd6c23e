/** Decoding whole VCDIFF files, with code tables that are themselves coded (section 7 of RFC 3284). */
module VcdDecode {
  import opened Words
  import opened Options
  import opened VcdInteger
  import opened VcdCache
  import opened VcdTable
  import opened VcdVm
  import opened VcdScript
  import opened VcdFile

  /** The table that code table data hold: the sizes of the caches, and a file that rebuilds the entries from the
      default ones. The data of a table within are strictly shorter, so the nesting ends. */
  function TableOf(data: seq<Byte>): (r: Outcome<Table>)
    ensures r.Done? ==> r.value.Valid()
    decreases |data|, 0
  {
    if |data| <= 2 then Failed
    else
      match FileOf(data[2..], true)
      case None => Failed
      case Some(file) =>
        match Decode(ToString(Default().entries), file)
        case Done(target) =>
          if |target| != CODE_TABLE_LENGTH then Failed else Done(Table(data[0], data[1], FromString(target)))
        case Failed => Failed
        case Loops => Loops
  }

  /** The target that a file builds from a source. */
  function Decode(source: seq<Byte>, file: File): (r: Outcome<seq<Byte>>)
    ensures r.Done? ==> |r.value| == TargetSize(file.windows)
    decreases |file.codeTable|, 1
  {
    if file.CodeTableP() then
      match TableOf(file.codeTable)
      case Done(table) => DecodeWith(source, table, file.windows)
      case Failed => Failed
      case Loops => Loops
    else DecodeWith(source, Default(), file.windows)
  }

  // ---------- a table coded as one ADD ----------

  /** The length of the delta encoding below: 2 + 1 + 2 + 1 + 1 bytes before 1536 + 3 + 0 bytes of sections. */
  const TABLE_DELTA_LENGTH: nat := 1546

  function TableScript(entries: seq<Code>): seq<Op>
    requires |entries| == 256
  {
    [Op(1, Added(ToString(entries)), Nothing)]
  }

  function TableWindow(entries: seq<Code>): Window
    requires |entries| == 256
  {
    Window(0, 0, 0, Delta(TABLE_DELTA_LENGTH, CODE_TABLE_LENGTH, 0,
                          ToString(entries), [1] + Digits(CODE_TABLE_LENGTH), []))
  }

  function TableFile(entries: seq<Code>): File
    requires |entries| == 256
  {
    File(0, 0, 0, [], [TableWindow(entries)])
  }

  function TableData(table: Table): seq<Byte>
    requires table.Valid()
  {
    [table.sNear, table.sSame] + Print(TableFile(table.entries))
  }

  lemma TableScriptActs(entries: seq<Code>, source: seq<Byte>, seg: Segment, p: Point)
    requires |entries| == 256 && p == Point([], Initial(4, 3))
    ensures var ops := TableScript(entries);
            && LegalOps(source, seg, Default(), p, ops)
            && ActOps(source, seg, Default(), p, ops).out == ToString(entries)
            && CodeOps(source, seg, Default(), p, ops)
                == Sections(ToString(entries), [1] + Digits(CODE_TABLE_LENGTH), [])
  {
    hide ToString, Digits;
    var ops := TableScript(entries);
    assert DefaultCode(1) == Code(Part(ADD, 0, 0), NOTHING);
    assert LegalOp(source, seg, Default(), p, ops[0]);
    assert ops[1..] == [];
    assert [] + ToString(entries) == ToString(entries);
  }

  lemma TableWindowCodes(entries: seq<Code>, source: seq<Byte>)
    requires |entries| == 256
    ensures var w, p := TableWindow(entries), Point([], Initial(4, 3));
            && CodesWindow(source, Default(), CODE_TABLE_LENGTH, p, w, TableScript(entries))
            && ActWindow(source, Default(), CODE_TABLE_LENGTH, p, w, TableScript(entries)).out == ToString(entries)
  {
    hide LegalOps, ActOps, CodeOps, ToString, Digits, Default;
    TableScriptActs(entries, source, Segment(true, 0, CODE_TABLE_LENGTH), Point([], Initial(4, 3)));
  }

  lemma TableFileDecodes(entries: seq<Code>, source: seq<Byte>)
    requires |entries| == 256
    ensures Decode(source, TableFile(entries)) == Done(ToString(entries))
  {
    hide CodesWindow, ActWindow, DecodeWith, ToString, Digits;
    var ws, scripts := [TableWindow(entries)], [TableScript(entries)];
    assert ws[..0] == [];
    assert TargetSize(ws) == CODE_TABLE_LENGTH;
    TableWindowCodes(entries, source);
    DecodeReads(source, Default(), ws, scripts);
  }

  lemma TableFileFits(entries: seq<Code>)
    requires |entries| == 256
    ensures Fits(TableFile(entries), true)
  {
    assert |[1] + Digits(CODE_TABLE_LENGTH)| < WORD;
  }

  /** Any table survives being coded: what code table data hold is the table they were made from. */
  lemma TableRoundTrip(table: Table)
    requires table.Valid()
    ensures TableOf(TableData(table)) == Done(table)
  {
    hide Print, FileOf, DecodeWith, Digits, ToString, FromString;
    var data := TableData(table);
    assert data[2..] == Print(TableFile(table.entries));
    TableFileFits(table.entries);
    FileReads(TableFile(table.entries), true);
    TableFileDecodes(table.entries, ToString(Default().entries));
    StringRoundTrip(table.entries, ToString(table.entries));
  }

  /** Code table data hold a table exactly if they are the sizes of its two caches and then a file, read in the
      compatible mode, that decodes from the string of the default entries to the string of its own. */
  lemma TableExact(data: seq<Byte>, table: Table)
    requires table.Valid()
    ensures TableOf(data) == Done(table)
            <==> && |data| > 2 && table.sNear == data[0] && table.sSame == data[1]
                 && var f := FileOf(data[2..], true);
                    f.Some? && Decode(ToString(Default().entries), f.value) == Done(ToString(table.entries))
  {
    hide FileOf, ToString, FromString, Default;
    if |data| > 2 && FileOf(data[2..], true).Some? {
      match Decode(ToString(Default().entries), FileOf(data[2..], true).value)
      case Done(target) =>
        if |target| == CODE_TABLE_LENGTH {
          StringRoundTrip(table.entries, target);
        }
      case _ =>
    }
  }

  // ---------- from scripts to bytes and back ----------

  /** The table that a file declares. */
  predicate Declares(file: File, table: Table)
    requires table.Valid()
  {
    if file.CodeTableP() then TableOf(file.codeTable) == Done(table) else table == Default()
  }

  /** Reading a printed file and decoding it gives exactly the meaning of the scripts that its windows code, with the
      default table or any other one. */
  lemma PrintedDecodes(source: seq<Byte>, file: File, table: Table, scripts: seq<seq<Op>>, compatible: bool)
    requires Fits(file, compatible) && table.Valid() && Declares(file, table)
    requires CodesWindows(source, table, TargetSize(file.windows), Start(table), file.windows, scripts)
    ensures FileOf(Print(file), compatible) == Some(file)
    ensures Decode(source, file)
         == Done(ActWindows(source, table, TargetSize(file.windows), Start(table), file.windows, scripts).out)
  {
    hide CodesWindows, ActWindows, DecodeWith, FileOf, Print, Fits;
    FileReads(file, compatible);
    DecodeReads(source, table, file.windows, scripts);
  }

  /** A printed table can be declared by any file. */
  lemma DeclaresAny(file: File, table: Table)
    requires table.Valid() && file.CodeTableP() && file.codeTable == TableData(table)
    ensures Declares(file, table)
  {
    TableRoundTrip(table);
  }
}
