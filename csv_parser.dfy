/** The upload validator of shared/utils/csv_parser.py, `validate_and_parse_csv`:
    an ordered chain of guards over the file name and the parsed table that
    always returns, with either `Ok(table)` or `Err(reason)`.

    Decoding the bytes as UTF-8 and tokenising them with pandas' `read_csv`
    (first column taken as the index) are not modelled; they are the `read`
    parameter, whose outcome is either a table or one of the exceptions the
    validator catches. Each column's `is_numeric_dtype` verdict is the
    column's `isNumeric` flag, and a missing cell (NaN) is `None`.
 */
module CsvParser {
  import opened Results
  import opened Sequences
  import opened PyStrings

  type byte = bv8

  /** A data column: its header and whether pandas inferred a numeric dtype. */
  datatype Column = Column(name: string, isNumeric: bool)

  /** One row of cells, one per column; `None` is a missing value. */
  type Row<V> = seq<Option<V>>

  /** A parsed table without its index column. */
  datatype Table<V> = Table(columns: seq<Column>, rows: seq<Row<V>>)

  /** What decoding and `read_csv` produce: a table, or the exception raised. */
  datatype ParseOutcome<V> =
    | DecodeFailure           // UnicodeDecodeError from bytes.decode("utf-8")
    | EmptyData               // pandas.errors.EmptyDataError
    | ParserFailure           // pandas.errors.ParserError
    | Other(message: string)  // any other Exception, with str(e)
    | Parsed(table: Table<V>)

  const EmptyFilenameMessage := "Nombre de archivo vacío. Por favor, suba un archivo."
  const EmptyOnReadMessage := "El archivo CSV está vacío o no contiene datos válidos después de la lectura."
  const EmptyAfterDropMessage := "El archivo CSV no contiene datos numéricos válidos después de procesar valores faltantes."
  const EmptyDataMessage := "El archivo CSV está vacío o solo contiene encabezados."
  const ParserErrorMessage := "Error al parsear el archivo CSV. Verifique que el formato sea correcto (ej. delimitadores, comillas)."
  const DecodeErrorMessage := "Error de codificación del archivo. Asegúrese de que el CSV esté codificado en UTF-8."
  const UnsupportedTypePrefix := "Tipo de archivo no soportado. Se esperaba '.csv', pero se recibió '"
  const NonNumericPrefix := "Todas las columnas de retornos en el CSV deben ser numéricas. Columnas no numéricas encontradas: "
  const UnexpectedPrefix := "Error inesperado al procesar el archivo CSV: "

  /** The unsupported-type rejection quotes the extension between `'` and
      `'.`, so the extension can be read back from the message. */
  function UnsupportedTypeMessage(ext: string): (m: string)
    ensures IsPrefix(UnsupportedTypePrefix, m) && EndsWith(m, "'.")
    ensures |m| == |UnsupportedTypePrefix| + |ext| + 2
    ensures m[|UnsupportedTypePrefix|..|m| - 2] == ext
  {
    UnsupportedTypePrefix + ext + "'."
  }

  /** The non-numeric rejection names every column it is given. */
  function NonNumericMessage(names: seq<string>): (m: string)
    ensures IsPrefix(NonNumericPrefix, m) && EndsWith(m, ".")
    ensures forall i :: 0 <= i < |names| ==> Occurs(names[i], m)
  {
    JoinContainsParts(names, ", ");
    forall i | 0 <= i < |names| ensures Occurs(names[i], NonNumericPrefix + Join(names, ", ") + ".") {
      OccursInContext(names[i], NonNumericPrefix, Join(names, ", "), ".");
    }
    NonNumericPrefix + Join(names, ", ") + "."
  }

  /** The catch-all rejection carries the exception's text after its prefix. */
  function UnexpectedMessage(detail: string): (m: string)
    ensures IsPrefix(UnexpectedPrefix, m)
    ensures m[|UnexpectedPrefix|..] == detail
  {
    UnexpectedPrefix + detail
  }

  /** `DataFrame.empty`: no rows or no columns, that is, no cells. */
  predicate IsEmpty<V>(t: Table<V>)
    ensures IsEmpty(t) <==> |t.rows| * |t.columns| == 0
  {
    |t.rows| == 0 || |t.columns| == 0
  }

  /** Every row has one cell per column, as pandas guarantees. */
  predicate WellFormed<V>(t: Table<V>) {
    forall i :: 0 <= i < |t.rows| ==> |t.rows[i]| == |t.columns|
  }

  predicate IsNonNumeric(c: Column) {
    !c.isNumeric
  }

  /** `all(is_numeric_dtype(df[col]) for col in df.columns)`. */
  predicate AllNumeric(columns: seq<Column>) {
    forall i :: 0 <= i < |columns| ==> columns[i].isNumeric
  }

  /** The filter of the list comprehension naming the non-numeric columns:
      the non-numeric columns and nothing else, in column order. */
  function NonNumericColumns(columns: seq<Column>): (r: seq<Column>)
    ensures IsSubsequence(r, columns)
    ensures forall c :: c in r <==> c in columns && !c.isNumeric
  {
    FilterExact(columns, IsNonNumeric);
    var r := Filter(columns, IsNonNumeric);
    assert forall c :: c in r <==> multiset(r)[c] > 0;
    r
  }

  /** `all(...)` fails exactly when the comprehension of non-numeric columns
      is not empty, so the two expressions of the guard agree. */
  lemma AllNumericIff(columns: seq<Column>)
    ensures AllNumeric(columns) <==> NonNumericColumns(columns) == []
  {
    FilterEmptyIff(columns, IsNonNumeric);
  }

  function Names(columns: seq<Column>): (names: seq<string>)
    ensures |names| == |columns|
    ensures forall i :: 0 <= i < |columns| ==> names[i] == columns[i].name
  {
    seq(|columns|, i requires 0 <= i < |columns| => columns[i].name)
  }

  /** A row that `dropna()` keeps: no cell is missing. */
  predicate IsComplete<V>(row: Row<V>)
    ensures IsComplete(row) <==> None !in row
  {
    forall j :: 0 <= j < |row| ==> row[j].Some?
  }

  /** `DataFrame.dropna()`: the same columns, and only the complete rows. */
  function DropNa<V>(t: Table<V>): (r: Table<V>)
    ensures r.columns == t.columns
    ensures |r.rows| <= |t.rows|
    ensures forall i :: 0 <= i < |r.rows| ==> IsComplete(r.rows[i])
  {
    Table(t.columns, Filter(t.rows, IsComplete))
  }

  /** What an accepted table satisfies: it is not empty, every column is
      numeric and no cell is missing. */
  predicate IsReturnsTable<V>(t: Table<V>) {
    && !IsEmpty(t)
    && AllNumeric(t.columns)
    && forall i :: 0 <= i < |t.rows| ==> IsComplete(t.rows[i])
  }

  /** The guards applied to the table `read_csv` produced: empty on read,
      then non-numeric columns, then `dropna()` and emptiness again. */
  function CheckTable<V>(t: Table<V>): (r: Result<Table<V>, string>)
    ensures r.Ok? ==> IsReturnsTable(r.value)
    ensures r.Ok? ==> r.value == DropNa(t)
  {
    if IsEmpty(t) then Err(EmptyOnReadMessage)
    else if !AllNumeric(t.columns) then
      Err(NonNumericMessage(Names(NonNumericColumns(t.columns))))
    else
      var cleaned := DropNa(t);
      if IsEmpty(cleaned) then Err(EmptyAfterDropMessage)
      else Ok(cleaned)
  }

  /** The `except` clauses: each exception raised while reading becomes an
      `Err`; a table goes on to the guards. */
  function CheckOutcome<V>(outcome: ParseOutcome<V>): (r: Result<Table<V>, string>)
    ensures r.Ok? ==> outcome.Parsed? && r == CheckTable(outcome.table)
  {
    match outcome
    case EmptyData => Err(EmptyDataMessage)
    case ParserFailure => Err(ParserErrorMessage)
    case DecodeFailure => Err(DecodeErrorMessage)
    case Other(detail) => Err(UnexpectedMessage(detail))
    case Parsed(t) => CheckTable(t)
  }

  /** `validate_and_parse_csv(file_content, filename)`: the file name guards
      come first and do not look at the content; `read` stands for decoding
      and `read_csv`. */
  function ValidateAndParseCsv<V>(fileContent: seq<byte>, filename: string,
                                  read: seq<byte> -> ParseOutcome<V>): (r: Result<Table<V>, string>)
    ensures r.Ok? ==> filename != [] && EndsWith(filename, ".csv")
    ensures r.Ok? ==> read(fileContent).Parsed? && r.value == DropNa(read(fileContent).table)
    ensures r.Ok? ==> IsReturnsTable(r.value)
  {
    if filename == [] then Err(EmptyFilenameMessage)
    else if !EndsWith(filename, ".csv") then Err(UnsupportedTypeMessage(LastPiece(filename, '.')))
    else CheckOutcome(read(fileContent))
  }

  // ---------------------------------------------------------------------------
  // Properties of the guard chain
  // ---------------------------------------------------------------------------

  /** An empty file name is rejected before anything else, whatever the
      content and whatever reading it would give. */
  lemma EmptyFilenameFirst<V>(fileContent: seq<byte>, read: seq<byte> -> ParseOutcome<V>)
    ensures ValidateAndParseCsv(fileContent, "", read) == Err(EmptyFilenameMessage)
  {
  }

  /** A non-empty name that does not end in `.csv` is rejected before the
      content is read, quoting the text after its last `.`. */
  lemma WrongExtensionRejected<V>(fileContent: seq<byte>, filename: string,
                                  read: seq<byte> -> ParseOutcome<V>)
    requires filename != [] && !EndsWith(filename, ".csv")
    ensures ValidateAndParseCsv(fileContent, filename, read)
            == Err(UnsupportedTypeMessage(LastPiece(filename, '.')))
  {
  }

  /** The file name guards do not depend on the content: a name they reject
      gets the same answer for every content and every reader. */
  lemma FilenameGuardsIgnoreContent<V>(c1: seq<byte>, c2: seq<byte>, filename: string,
                                       read1: seq<byte> -> ParseOutcome<V>,
                                       read2: seq<byte> -> ParseOutcome<V>)
    requires filename == [] || !EndsWith(filename, ".csv")
    ensures ValidateAndParseCsv(c1, filename, read1) == ValidateAndParseCsv(c2, filename, read2)
    ensures ValidateAndParseCsv(c1, filename, read1).Err?
  {
  }

  /** Each exception raised by decoding or reading becomes its own `Err`; none
      escapes. */
  lemma ReadFailuresBecomeErr<V>(fileContent: seq<byte>, filename: string,
                                 read: seq<byte> -> ParseOutcome<V>)
    requires filename != [] && EndsWith(filename, ".csv")
    ensures read(fileContent) == DecodeFailure ==>
              ValidateAndParseCsv(fileContent, filename, read) == Err(DecodeErrorMessage)
    ensures read(fileContent) == EmptyData ==>
              ValidateAndParseCsv(fileContent, filename, read) == Err(EmptyDataMessage)
    ensures read(fileContent) == ParserFailure ==>
              ValidateAndParseCsv(fileContent, filename, read) == Err(ParserErrorMessage)
    ensures read(fileContent).Other? ==>
              ValidateAndParseCsv(fileContent, filename, read)
              == Err(UnexpectedMessage(read(fileContent).message))
  {
  }

  /** An empty table is rejected as empty on read, before the numeric check:
      the answer is the same whatever the columns' dtypes. */
  lemma EmptyCheckedBeforeNumeric<V>(t: Table<V>)
    requires IsEmpty(t)
    ensures CheckTable(t) == Err(EmptyOnReadMessage)
    ensures forall cols :: |cols| == |t.columns| ==>
              CheckTable(Table(cols, t.rows)) == Err(EmptyOnReadMessage)
  {
  }

  /** A non-empty table with a non-numeric column is rejected with a message
      listing exactly the non-numeric columns, in column order; `Ok` is never
      returned while such a column is present. */
  lemma NonNumericRejected<V>(t: Table<V>)
    requires !IsEmpty(t)
    requires exists i :: 0 <= i < |t.columns| && !t.columns[i].isNumeric
    ensures CheckTable(t) == Err(NonNumericMessage(Names(NonNumericColumns(t.columns))))
    ensures NonNumericColumns(t.columns) != []
    ensures IsSubsequence(NonNumericColumns(t.columns), t.columns)
    ensures forall c :: multiset(NonNumericColumns(t.columns))[c]
                        == if c.isNumeric then 0 else multiset(t.columns)[c]
  {
    FilterEmptyIff(t.columns, IsNonNumeric);
    FilterExact(t.columns, IsNonNumeric);
  }

  /** `dropna()` keeps the columns and exactly the complete rows, in order,
      adding nothing; it keeps a table well formed, it drops rows exactly
      when some row has a missing cell, and applying it twice is applying it
      once. */
  lemma DropNaKeepsCompleteRows<V>(t: Table<V>)
    ensures DropNa(t).columns == t.columns
    ensures IsSubsequence(DropNa(t).rows, t.rows)
    ensures forall row :: multiset(DropNa(t).rows)[row]
                          == if IsComplete(row) then multiset(t.rows)[row] else 0
    ensures WellFormed(t) ==> WellFormed(DropNa(t))
    ensures |DropNa(t).rows| < |t.rows| <==> exists i :: 0 <= i < |t.rows| && !IsComplete(t.rows[i])
    ensures DropNa(DropNa(t)) == DropNa(t)
  {
    FilterExact(t.rows, IsComplete);
    FilterShrinksIff(t.rows, IsComplete);
    FilterIdempotent(t.rows, IsComplete);
    if WellFormed(t) {
      var r := DropNa(t).rows;
      forall i | 0 <= i < |r| ensures |r[i]| == |t.columns| {
        assert r[i] in r;
      }
    }
  }

  /** When no row survives `dropna()`, the rejection differs from the one for
      a table that was empty on read. */
  lemma EmptyAfterDropDistinct<V>(t: Table<V>)
    requires !IsEmpty(t) && AllNumeric(t.columns)
    requires forall i :: 0 <= i < |t.rows| ==> !IsComplete(t.rows[i])
    ensures CheckTable(t) == Err(EmptyAfterDropMessage)
    ensures EmptyAfterDropMessage != EmptyOnReadMessage
  {
    FilterEmptyIff(t.rows, IsComplete);
    assert |EmptyAfterDropMessage| != |EmptyOnReadMessage|;
  }

  /** The validator accepts exactly when the name is a `.csv` name, reading
      gives a non-empty table whose columns are all numeric, and at least one
      of its rows is complete. */
  lemma AcceptsExactly<V>(fileContent: seq<byte>, filename: string,
                          read: seq<byte> -> ParseOutcome<V>)
    ensures ValidateAndParseCsv(fileContent, filename, read).Ok?
            <==> && filename != []
                 && EndsWith(filename, ".csv")
                 && read(fileContent).Parsed?
                 && !IsEmpty(read(fileContent).table)
                 && AllNumeric(read(fileContent).table.columns)
                 && exists i :: 0 <= i < |read(fileContent).table.rows|
                                && IsComplete(read(fileContent).table.rows[i])
  {
    var o := read(fileContent);
    if o.Parsed? {
      FilterEmptyIff(o.table.rows, IsComplete);
    }
  }
}
