/**
 * The ingestion step of the customer data-quality pipeline: the required-column
 * check made when the CSV header is read, the per-row validator, and the loop
 * that splits the loaded rows into valid rows and invalid rows with their defects.
 * Reading the file and tokenising CSV are outside the model: the header and
 * the rows arrive as values.
 */
module LoadData {
  import opened Wrappers
  import opened PyInt

  /** One CSV row: column name to cell text. */
  type Record = map<string, string>

  /** The columns every input file must provide. */
  const RequiredColumns: set<string> := {"customer_id", "name", "age", "email", "country"}

  const SchemaMismatchMessage := "CSV schema mismatch"

  const NameMissing := "name is missing"
  const AgeNotInteger := "age is not an integer"
  const AgeNotPositive := "age must be positive"

  /** The error load_csv raises for a header without every required column. */
  datatype LoadError = SchemaMismatch(message: string)

  /** An invalid row kept together with the defects found in it. */
  datatype InvalidRow = InvalidRow(row: Record, errors: seq<string>)

  /** The two lists main builds from the loaded rows. */
  datatype Partition = Partition(valid: seq<Record>, invalid: seq<InvalidRow>)

  // ---------------------------------------------------------------------------
  // Schema check
  // ---------------------------------------------------------------------------

  /** Every required column is among the header's field names (extra ones are fine). */
  predicate SchemaMatches(header: seq<string>)
  {
    forall c :: c in RequiredColumns ==> c in header
  }

  /** load_csv once the file is open: reject a header that lacks a required column. */
  function LoadCsv(header: seq<string>, rows: seq<Record>): (r: Result<seq<Record>, LoadError>)
    ensures r.Failure? <==> exists c :: c in RequiredColumns && c !in header
    ensures r.Failure? ==> r.error == SchemaMismatch(SchemaMismatchMessage)
    ensures r.Success? ==> r.value == rows
  {
    if SchemaMatches(header) then Success(rows) else Failure(SchemaMismatch(SchemaMismatchMessage))
  }

  /** The field names of a header as a set, the way issubset sees them. */
  function FieldSet(header: seq<string>): (names: set<string>)
    ensures forall c :: c in names <==> c in header
  {
    set c | c in header
  }

  /** The check is a subset test: only the set of field names matters, and a superset passes. */
  lemma SchemaIsSubsetTest(header: seq<string>, wider: seq<string>)
    ensures SchemaMatches(header) <==> RequiredColumns <= FieldSet(header)
    ensures SchemaMatches(header) && FieldSet(header) <= FieldSet(wider) ==> SchemaMatches(wider)
  {
  }

  /** Dropping any one required column from the header makes the load fail. */
  lemma SchemaMissingColumn(header: seq<string>, missing: string)
    requires missing in RequiredColumns
    ensures LoadCsv(Remove(header, missing), []).Failure?
  {
  }

  /** `header` with every occurrence of `name` taken out. */
  function Remove(header: seq<string>, name: string): (r: seq<string>)
    ensures name !in r
    ensures forall c :: c in header && c != name ==> c in r
  {
    if header == [] then []
    else if header[0] == name then Remove(header[1..], name)
    else [header[0]] + Remove(header[1..], name)
  }

  /**
   * Once the header passes, every row that carries the header's columns (as the
   * CSV reader guarantees) has the name and age fields the validator reads.
   */
  lemma SchemaGivesCheckedFields(header: seq<string>, rows: seq<Record>)
    requires SchemaMatches(header)
    requires forall row, c :: row in rows && c in header ==> c in row
    ensures AllCheckable(rows)
  {
  }

  // ---------------------------------------------------------------------------
  // Row validation
  // ---------------------------------------------------------------------------

  /** The fields validate_row indexes; a row without them raises KeyError there. */
  predicate HasCheckedFields(row: Record)
  {
    "name" in row && "age" in row
  }

  predicate AllCheckable(rows: seq<Record>)
  {
    forall row :: row in rows ==> HasCheckedFields(row)
  }

  /** The age text is an integer greater than zero. */
  predicate PositiveAge(age: string)
  {
    ParseInt(age).Some? && ParseInt(age).value > 0
  }

  /** The defects of one row, in the order the validator reports them. */
  function Defects(row: Record): (errs: seq<string>)
    requires HasCheckedFields(row)
    ensures |errs| <= 2
    ensures errs == [] <==> row["name"] != "" && PositiveAge(row["age"])
    ensures forall e :: e in errs ==> e == NameMissing || e == AgeNotInteger || e == AgeNotPositive
  {
    var nameErrors := if row["name"] == "" then [NameMissing] else [];
    var ageErrors :=
      match ParseInt(row["age"])
      case None => [AgeNotInteger]
      case Some(age) => if age <= 0 then [AgeNotPositive] else [];
    nameErrors + ageErrors
  }

  /**
   * Which defect is reported when: "name is missing" exactly for an empty name and
   * then in first place; "age is not an integer" exactly when the age does not parse;
   * "age must be positive" exactly when it parses to zero or less; so the two age
   * defects never appear together; each applicable message appears once.
   */
  lemma DefectsReported(row: Record)
    requires HasCheckedFields(row)
    ensures NameMissing in Defects(row) <==> row["name"] == ""
    ensures NameMissing in Defects(row) ==> Defects(row)[0] == NameMissing
    ensures AgeNotInteger in Defects(row) <==> ParseInt(row["age"]).None?
    ensures AgeNotPositive in Defects(row) <==> ParseInt(row["age"]).Some? && ParseInt(row["age"]).value <= 0
    ensures !(AgeNotInteger in Defects(row) && AgeNotPositive in Defects(row))
    ensures |Defects(row)| == (if row["name"] == "" then 1 else 0) + (if PositiveAge(row["age"]) then 0 else 1)
  {
  }

  /** validate_row: both checks run, the name check first, and neither stops the other. */
  method ValidateRow(row: Record) returns (errors: seq<string>)
    requires HasCheckedFields(row)
    ensures errors == Defects(row)
  {
    errors := [];
    if row["name"] == "" {
      errors := errors + [NameMissing];
    }
    var age := ParseInt(row["age"]);
    match age {
      case Some(n) =>
        if n <= 0 {
          errors := errors + [AgeNotPositive];
        }
      case None =>
        errors := errors + [AgeNotInteger];
    }
  }

  /** A missing name does not hide an age defect: both are reported, name first. */
  lemma NameAndAgeBothReported(row: Record)
    requires HasCheckedFields(row)
    requires row["name"] == "" && !PositiveAge(row["age"])
    ensures |Defects(row)| == 2 && Defects(row)[0] == NameMissing
    ensures Defects(row)[1] == (if ParseInt(row["age"]).None? then AgeNotInteger else AgeNotPositive)
  {
  }

  /**
   * A signed age such as "-3" parses, so it is reported as not positive, never as not
   * an integer (for ages within int()'s 4300-digit limit; see AgeTooLongReported).
   */
  lemma NonPositiveAgeReported(row: Record, ws1: string, n: int, ws2: string)
    requires HasCheckedFields(row)
    requires |ShowNat(Abs(n))| <= MaxStrDigits
    requires AllSpace(ws1) && AllSpace(ws2) && row["age"] == ws1 + Show(n) + ws2
    ensures AgeNotInteger !in Defects(row)
    ensures AgeNotPositive in Defects(row) <==> n <= 0
  {
    ParseShow(ws1, n, ws2);
    assert ParseInt(row["age"]) == Some(n);
    DefectsReported(row);
  }

  /** A named customer whose age is written as a positive integer of at most 4300 digits has no defects. */
  lemma WellFormedRowIsValid(row: Record, ws1: string, n: int, ws2: string)
    requires HasCheckedFields(row)
    requires row["name"] != "" && n > 0
    requires |ShowNat(n)| <= MaxStrDigits
    requires AllSpace(ws1) && AllSpace(ws2) && row["age"] == ws1 + Show(n) + ws2
    ensures Defects(row) == []
  {
    ParseShow(ws1, n, ws2);
    assert PositiveAge(row["age"]);
  }

  /**
   * An age written with more digits than int() converts (leading zeros included) is
   * reported as not an integer, whatever its value, and never as not positive.
   */
  lemma AgeTooLongReported(row: Record, ws1: string, sign: string, d: string, ws2: string)
    requires HasCheckedFields(row)
    requires AllSpace(ws1) && AllSpace(ws2) && IsSign(sign) && AllDigits(d) && |d| > MaxStrDigits
    requires row["age"] == ws1 + sign + d + ws2
    ensures AgeNotInteger in Defects(row) && AgeNotPositive !in Defects(row)
    ensures Defects(row) != []
  {
    ParseGrammar(ws1, sign, d, ws2);
    assert ParseInt(row["age"]) == None;
    DefectsReported(row);
  }

  // ---------------------------------------------------------------------------
  // Partition of the loaded rows
  // ---------------------------------------------------------------------------
  // The partition is defined for any validator `validate`; main uses Defects.
  // Keeping the validator a parameter lets the properties below be proved once,
  // without unfolding the integer parser inside Defects.

  /** Every row is one the validator can be applied to. */
  ghost predicate Checkable(rows: seq<Record>, validate: Record --> seq<string>)
  {
    forall row :: row in rows ==> validate.requires(row)
  }

  /** The rows with no defects, in input order. */
  function ValidRows(rows: seq<Record>, validate: Record --> seq<string>): seq<Record>
    requires Checkable(rows, validate)
  {
    if rows == [] then []
    else
      var last := rows[|rows| - 1];
      ValidRows(rows[..|rows| - 1], validate) + (if validate(last) == [] then [last] else [])
  }

  /** The rows with defects, each paired with its defects, in input order. */
  function InvalidRows(rows: seq<Record>, validate: Record --> seq<string>): seq<InvalidRow>
    requires Checkable(rows, validate)
  {
    if rows == [] then []
    else
      var last := rows[|rows| - 1];
      InvalidRows(rows[..|rows| - 1], validate)
        + (if validate(last) != [] then [InvalidRow(last, validate(last))] else [])
  }

  /** The rows the invalid entries were made from. */
  function RowsOf(entries: seq<InvalidRow>): (rs: seq<Record>)
    ensures |rs| == |entries|
    ensures forall i :: 0 <= i < |entries| ==> rs[i] == entries[i].row
  {
    seq(|entries|, i requires 0 <= i < |entries| => entries[i].row)
  }

  /** The loop in main: validate each row in turn and append it to one of the two lists. */
  method PartitionRows(rows: seq<Record>) returns (valid: seq<Record>, invalid: seq<InvalidRow>)
    requires AllCheckable(rows)
    ensures valid == ValidRows(rows, Defects) && invalid == InvalidRows(rows, Defects)
    ensures |valid| + |invalid| == |rows|
  {
    valid, invalid := [], [];
    for i := 0 to |rows|
      invariant valid == ValidRows(rows[..i], Defects)
      invariant invalid == InvalidRows(rows[..i], Defects)
    {
      var row := rows[i];
      var errors := ValidateRow(row);
      if errors != [] {
        invalid := invalid + [InvalidRow(row, errors)];
      } else {
        valid := valid + [row];
      }
      assert rows[..i + 1][..i] == rows[..i];
    }
    assert rows[..|rows|] == rows;
    PartitionSizes(rows, Defects);
  }

  /** main up to its printing: load (schema check) and partition. */
  method Ingest(header: seq<string>, rows: seq<Record>) returns (r: Result<Partition, LoadError>)
    requires forall row, c :: row in rows && c in header ==> c in row
    ensures r.Failure? <==> !SchemaMatches(header)
    ensures r.Failure? ==> r.error == SchemaMismatch(SchemaMismatchMessage)
    ensures r.Success? ==> AllCheckable(rows)
    ensures r.Success? ==> r.value.valid == ValidRows(rows, Defects) && r.value.invalid == InvalidRows(rows, Defects)
  {
    var loaded := LoadCsv(header, rows);
    if loaded.Failure? {
      return Failure(loaded.error);
    }
    SchemaGivesCheckedFields(header, rows);
    var valid, invalid := PartitionRows(loaded.value);
    return Success(Partition(valid, invalid));
  }

  // ---------------------------------------------------------------------------
  // Properties of the partition
  // ---------------------------------------------------------------------------

  /** Every row lands in one of the two lists: the lengths add up. */
  lemma {:induction false} PartitionSizes(rows: seq<Record>, validate: Record --> seq<string>)
    requires Checkable(rows, validate)
    ensures |ValidRows(rows, validate)| + |InvalidRows(rows, validate)| == |rows|
  {
    if rows != [] {
      PartitionSizes(rows[..|rows| - 1], validate);
    }
  }

  /**
   * Each row lands in exactly one list: the valid rows and the rows of the
   * invalid entries together are the input, duplicates counted.
   */
  lemma {:induction false} PartitionIsExact(rows: seq<Record>, validate: Record --> seq<string>)
    requires Checkable(rows, validate)
    ensures multiset(ValidRows(rows, validate)) + multiset(RowsOf(InvalidRows(rows, validate))) == multiset(rows)
  {
    if rows != [] {
      var init, last := rows[..|rows| - 1], rows[|rows| - 1];
      PartitionIsExact(init, validate);
      assert rows == init + [last];
      var prev := InvalidRows(init, validate);
      if validate(last) != [] {
        assert RowsOf(prev + [InvalidRow(last, validate(last))]) == RowsOf(prev) + [last];
      } else {
        assert RowsOf(InvalidRows(rows, validate)) == RowsOf(prev);
      }
    }
  }

  /**
   * A row is in the valid list only if it has no defects, and every invalid entry
   * holds an input row with exactly that row's (non-empty) defect list.
   */
  lemma {:induction false} PartitionClassifies(rows: seq<Record>, validate: Record --> seq<string>)
    requires Checkable(rows, validate)
    ensures forall row :: row in ValidRows(rows, validate) ==>
      row in rows && validate.requires(row) && validate(row) == []
    ensures forall e :: e in InvalidRows(rows, validate) ==>
      e.row in rows && validate.requires(e.row) && e.errors == validate(e.row) && e.errors != []
  {
    if rows != [] {
      var init := rows[..|rows| - 1];
      PartitionClassifies(init, validate);
      assert forall row :: row in init ==> row in rows;
    }
  }

  /** Conversely, every input row is found in the list its defects send it to. */
  lemma {:induction false} PartitionCovers(rows: seq<Record>, validate: Record --> seq<string>)
    requires Checkable(rows, validate)
    ensures forall row :: row in rows && validate(row) == [] ==> row in ValidRows(rows, validate)
    ensures forall row :: row in rows && validate(row) != [] ==>
      InvalidRow(row, validate(row)) in InvalidRows(rows, validate)
  {
    if rows != [] {
      var init, last := rows[..|rows| - 1], rows[|rows| - 1];
      PartitionCovers(init, validate);
      assert rows == init + [last];
    }
  }

  /**
   * Order is kept: partitioning a concatenation gives the concatenated partitions,
   * so a row earlier in the input comes earlier in its list.
   */
  lemma {:induction false} PartitionKeepsOrder(a: seq<Record>, b: seq<Record>, validate: Record --> seq<string>)
    requires Checkable(a, validate) && Checkable(b, validate)
    ensures Checkable(a + b, validate)
    ensures ValidRows(a + b, validate) == ValidRows(a, validate) + ValidRows(b, validate)
    ensures InvalidRows(a + b, validate) == InvalidRows(a, validate) + InvalidRows(b, validate)
  {
    if b == [] {
      assert a + b == a;
    } else {
      var init := b[..|b| - 1];
      var ab := a + b;
      assert ab[..|ab| - 1] == a + init;
      PartitionKeepsOrder(a, init, validate);
    }
  }
}
