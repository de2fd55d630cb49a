/** `Patient`: the record the server keeps per registration, and the two forms
    `PatientService` writes it in, a line of `patients.csv` and the JSON object
    of a `GET_PATIENT` reply. Java's `int` fields hold values in the 32-bit
    range and its `long` fields in the 64-bit range; `registrationDate` is the
    millisecond count `Date.getTime()` returns. */
module PatientRecord {
  import opened Wrappers
  import opened Common
  import opened JavaText
  import opened Json

  datatype Patient = Patient(
    patientId: string,
    fullName: string,
    documentId: string,
    age: int,
    sex: string,
    email: string,
    registrationDate: int,
    clinicalNotes: string,
    checksumFasta: string,
    fileSizeBytes: int,
    active: bool,
    fastaFilename: string)

  const CsvHeader: string := "patientId,fullName,documentId,age,sex,email,registrationDate,clinicalNotes,checksumFasta,fileSizeBytes,active,fastaFilename"

  // ---------------------------------------------------------------- CSV line

  /** The twelve columns of `convertPatientToCsv`, in header order. */
  function Columns(p: Patient): (columns: seq<string>)
    ensures |columns| == 12 && columns[0] == p.patientId && columns[11] == p.fastaFilename
  {
    [p.patientId, p.fullName, p.documentId, IntToString(p.age), p.sex, p.email,
     IntToString(p.registrationDate), p.clinicalNotes, p.checksumFasta,
     IntToString(p.fileSizeBytes), BoolToString(p.active), p.fastaFilename]
  }

  /** `convertPatientToCsv(patient)`: `String.join(",", ...)` of the columns. */
  function PatientCsv(p: Patient): string
  {
    Join(Columns(p), ',')
  }

  /** `getPatient(values)`: the columns of a CSV line read back into a record;
      the three numeric columns are parsed in order and the first that is not
      a numeral of its width raises `NumberFormatException`. */
  function RowToPatient(values: seq<string>): (r: Result<Patient, Failure>)
    requires |values| >= 12
    ensures r.Ok? <==> ParseInt(values[3]).Some? && ParseLong(values[6]).Some? && ParseLong(values[9]).Some?
    ensures ParseInt(values[3]).None? ==> r == Err(NumberFormatError(values[3]))
    ensures r.Err? ==> r.error.RuntimeError?
    ensures r.Ok? ==> IntMin <= r.value.age <= IntMax && LongMin <= r.value.fileSizeBytes <= LongMax
    ensures r.Ok? ==> r.value.patientId == values[0] && r.value.active == ParseBoolean(values[10])
  {
    match ParseInt(values[3])
    case None => Err(NumberFormatError(values[3]))
    case Some(age) =>
      match ParseLong(values[6])
      case None => Err(NumberFormatError(values[6]))
      case Some(registered) =>
        match ParseLong(values[9])
        case None => Err(NumberFormatError(values[9]))
        case Some(size) =>
          Ok(Patient(values[0], values[1], values[2], age, values[4], values[5], registered,
                     values[7], values[8], size, ParseBoolean(values[10]), values[11]))
  }

  /** A text column that stays within its field and its line: no separator,
      and neither of the characters `Files.readAllLines` breaks lines at. */
  predicate CsvText(s: string)
  {
    ',' !in s && '\n' !in s && '\r' !in s
  }

  /** The records a CSV line can carry without being misread: every text
      column is `CsvText`, the last column is not empty (the split drops
      trailing empty columns) and the numbers have their Java widths. */
  predicate CsvSafe(p: Patient)
  {
    && CsvText(p.patientId) && CsvText(p.fullName) && CsvText(p.documentId) && CsvText(p.sex)
    && CsvText(p.email) && CsvText(p.clinicalNotes) && CsvText(p.checksumFasta) && CsvText(p.fastaFilename)
    && p.fastaFilename != ""
    && IntMin <= p.age <= IntMax
    && LongMin <= p.registrationDate <= LongMax
    && LongMin <= p.fileSizeBytes <= LongMax
  }

  lemma NoCommaInNumber(i: int)
    ensures ',' !in IntToString(i)
  {
    var digits := NatToString(if i < 0 then -i else i);
    if i < 0 {
      assert IntToString(i) == "-" + digits;
    }
  }

  /** A record that fits the format splits back into its own columns. */
  lemma SplitPatientCsv(p: Patient)
    requires CsvSafe(p)
    ensures JavaSplit(PatientCsv(p), ',') == Columns(p)
  {
    var columns := Columns(p);
    NoCommaInNumber(p.age);
    NoCommaInNumber(p.registrationDate);
    NoCommaInNumber(p.fileSizeBytes);
    assert ',' !in BoolToString(p.active);
    assert forall i :: 0 <= i < 12 ==> ',' !in columns[i];
    JavaSplitJoin(columns, ',');
  }

  /** The columns of a record in range parse back to the record. */
  lemma RowOfColumns(p: Patient)
    requires CsvSafe(p)
    ensures RowToPatient(Columns(p)) == Ok(p)
  {
    var columns := Columns(p);
    assert ParseInt(columns[3]) == Some(p.age) by {
      ParseIntegerOfIntToString(p.age);
    }
    assert ParseLong(columns[6]) == Some(p.registrationDate) by {
      ParseIntegerOfIntToString(p.registrationDate);
    }
    assert ParseLong(columns[9]) == Some(p.fileSizeBytes) by {
      ParseIntegerOfIntToString(p.fileSizeBytes);
    }
    ParseBooleanOfBoolToString(p.active);
  }

  /** `loadPatientsFromCsv` reads back exactly the record `savePatientToCsv`
      wrote, as long as the record fits the format. */
  lemma CsvRoundTrip(p: Patient)
    requires CsvSafe(p)
    ensures |JavaSplit(PatientCsv(p), ',')| == 12
    ensures RowToPatient(JavaSplit(PatientCsv(p), ',')) == Ok(p)
  {
    SplitPatientCsv(p);
    RowOfColumns(p);
  }

  /** A separator inside the name shifts every later column: the line is
      then read with the name's tail as the document id. */
  lemma CommaInNameShifts(p: Patient, first: string, rest: string)
    requires p.fullName == first + "," + rest
    requires ',' !in first && ',' !in rest && CsvSafe(p.(fullName := first))
    ensures |JavaSplit(PatientCsv(p), ',')| == 13
    ensures JavaSplit(PatientCsv(p), ',')[2] == rest
  {
    var shifted := [p.patientId, first, rest] + Columns(p)[2..];
    ShiftedJoin(p, first, rest);
    ShiftedColumnsSafe(p, first, rest);
    JavaSplitJoin(shifted, ',');
  }

  /** The line of a name `first,rest` is the line of its columns with the name split in two. */
  lemma ShiftedJoin(p: Patient, first: string, rest: string)
    requires p.fullName == first + "," + rest
    ensures PatientCsv(p) == Join([p.patientId, first, rest] + Columns(p)[2..], ',')
  {
    var columns := Columns(p);
    assert columns == [p.patientId, p.fullName] + columns[2..];
    JoinSplitsSecond(p.patientId, first, rest, columns[2..]);
  }

  /** Splitting the second piece at a separator leaves the joined text as it was. */
  lemma JoinSplitsSecond(a: string, first: string, rest: string, tail: seq<string>)
    requires tail != []
    ensures Join([a, first + "," + rest] + tail, ',') == Join([a, first, rest] + tail, ',')
  {
    var joined := [a, first + "," + rest] + tail;
    var shifted := [a, first, rest] + tail;
    assert joined[1..] == [first + "," + rest] + tail && (joined[1..])[1..] == tail;
    assert shifted[1..] == [first, rest] + tail && (shifted[1..])[1..] == [rest] + tail;
    assert ([rest] + tail)[1..] == tail;
    assert Join([rest] + tail, ',') == rest + [','] + Join(tail, ',');
    assert Join(shifted[1..], ',') == first + [','] + (rest + [','] + Join(tail, ','));
    assert Join(joined[1..], ',') == (first + "," + rest) + [','] + Join(tail, ',');
  }

  /** No column of the shifted line holds a separator. */
  lemma ShiftedColumnsSafe(p: Patient, first: string, rest: string)
    requires ',' !in first && ',' !in rest && CsvSafe(p.(fullName := first))
    ensures forall i :: 0 <= i < 13 ==> ',' !in ([p.patientId, first, rest] + Columns(p)[2..])[i]
  {
    var columns := Columns(p);
    var shifted := [p.patientId, first, rest] + columns[2..];
    NoCommaInNumber(p.age);
    NoCommaInNumber(p.registrationDate);
    NoCommaInNumber(p.fileSizeBytes);
    assert ',' !in BoolToString(p.active);
    assert forall i :: 3 <= i < |shifted| ==> shifted[i] == columns[i - 1];
  }

  // ---------------------------------------------------------------- JSON object

  const JsonKeys: set<string> := {"patientId", "fullName", "documentId", "age", "sex", "email",
    "registrationDate", "clinicalNotes", "checksumFasta", "fileSizeBytes", "active", "fastaFilename"}

  /** `convertPatientToJson(patient)`: strings as strings, the three numbers as
      numbers, `active` as a boolean. */
  function PatientJson(p: Patient): (obj: JsonObject)
    ensures obj.Keys == JsonKeys
  {
    map[
      "patientId" := JString(p.patientId),
      "fullName" := JString(p.fullName),
      "documentId" := JString(p.documentId),
      "age" := JInt(p.age),
      "sex" := JString(p.sex),
      "email" := JString(p.email),
      "registrationDate" := JInt(p.registrationDate),
      "clinicalNotes" := JString(p.clinicalNotes),
      "checksumFasta" := JString(p.checksumFasta),
      "fileSizeBytes" := JInt(p.fileSizeBytes),
      "active" := JBool(p.active),
      "fastaFilename" := JString(p.fastaFilename)
    ]
  }

  /** `obj.getLong(key)` on a number in range, `obj.getBoolean(key)` on a boolean. */
  function NumberAt(obj: JsonObject, key: string): Option<int>
  {
    if key in obj && obj[key].JInt? then Some(obj[key].i) else None
  }

  function BooleanAt(obj: JsonObject, key: string): Option<bool>
  {
    if key in obj && obj[key].JBool? then Some(obj[key].b) else None
  }

  /** A reader of the reply object: the strings with `getString`, the age with
      `getInt` and the other fields by their JSON type. */
  function PatientOfJson(obj: JsonObject): Option<Patient>
  {
    if GetString(obj, "patientId").Err? || GetString(obj, "fullName").Err? || GetString(obj, "documentId").Err?
       || GetInt(obj, "age").Err? || GetString(obj, "sex").Err? || GetString(obj, "email").Err?
       || NumberAt(obj, "registrationDate").None? || GetString(obj, "clinicalNotes").Err?
       || GetString(obj, "checksumFasta").Err? || NumberAt(obj, "fileSizeBytes").None?
       || BooleanAt(obj, "active").None? || GetString(obj, "fastaFilename").Err?
    then None
    else Some(Patient(
      GetString(obj, "patientId").value, GetString(obj, "fullName").value, GetString(obj, "documentId").value,
      GetInt(obj, "age").value, GetString(obj, "sex").value, GetString(obj, "email").value,
      NumberAt(obj, "registrationDate").value, GetString(obj, "clinicalNotes").value,
      GetString(obj, "checksumFasta").value, NumberAt(obj, "fileSizeBytes").value,
      BooleanAt(obj, "active").value, GetString(obj, "fastaFilename").value))
  }

  /** The reply object carries the whole record: a client reads it back unchanged. */
  lemma JsonRoundTrip(p: Patient)
    requires IntMin <= p.age <= IntMax
    ensures PatientOfJson(PatientJson(p)) == Some(p)
  {
    var obj := PatientJson(p);
    assert obj["age"] == JInt(p.age);
    assert GetInt(obj, "age") == Ok(p.age);
  }

  // ---------------------------------------------------------------- identifiers

  /** `"PAT" + String.format("%06d", counter)` */
  function IdFor(counter: nat): (id: string)
    ensures |id| >= 9 && id[..3] == "PAT"
  {
    "PAT" + Format06(counter)
  }

  /** `Integer.parseInt(id.substring(3))`, or what it raises. */
  function IdNumber(id: string): (r: Result<int, Failure>)
    ensures r.Ok? ==> IntMin <= r.value <= IntMax
    ensures r.Err? ==> r.error.RuntimeError?
    ensures |id| < 3 ==> r.Err?
  {
    if |id| < 3 then
      Err(RuntimeError("begin 3, end " + IntToString(|id|) + ", length " + IntToString(|id|)))
    else match ParseInt(id[3..])
      case None => Err(NumberFormatError(id[3..]))
      case Some(v) => Ok(v)
  }

  /** A generated id reads back as the counter it was made from. */
  lemma IdNumberOfIdFor(counter: nat)
    ensures IdNumber(IdFor(counter)).Ok? <==> counter <= IntMax
    ensures counter <= IntMax ==> IdNumber(IdFor(counter)) == Ok(counter)
  {
    var id := IdFor(counter);
    assert id[3..] == Format06(counter);
    ParseIntegerOfFormat06(counter);
  }

  /** Different counters give different ids. */
  lemma IdForInjective(a: nat, b: nat)
    requires a <= IntMax && b <= IntMax && IdFor(a) == IdFor(b)
    ensures a == b
  {
    IdNumberOfIdFor(a);
    IdNumberOfIdFor(b);
  }

  // ---------------------------------------------------------------- rewriting the table

  /** One line of the loop of `updatePatientInCsv`: a line that begins with the
      patient's id and a comma is replaced by the record's current line. */
  function RewriteLine(line: string, p: Patient): string
  {
    if StartsWith(line, p.patientId + ",") then PatientCsv(p) else line
  }

  /** The whole file `updatePatientInCsv` writes back: the header line as it
      was, then every other line through `RewriteLine`. */
  function RewriteTable(lines: seq<string>, p: Patient): (r: seq<string>)
    requires lines != []
    ensures |r| == |lines| && r[0] == lines[0]
    ensures forall i :: 1 <= i < |lines| ==> r[i] == RewriteLine(lines[i], p)
  {
    if |lines| == 1 then lines
    else RewriteTable(lines[..|lines| - 1], p) + [RewriteLine(lines[|lines| - 1], p)]
  }

  /** The text of a line before its first comma: the id column as the loader reads it. */
  function FirstColumn(line: string): string
  {
    if ',' in line then line[..IndexOf(line, ',')] else line
  }

  /** A line is rewritten exactly when its id column is the patient's id. */
  lemma RewriteLineIff(line: string, p: Patient)
    requires ',' !in p.patientId
    ensures StartsWith(line, p.patientId + ",") <==> ',' in line && FirstColumn(line) == p.patientId
  {
    var prefix := p.patientId + ",";
    if StartsWith(line, prefix) {
      assert line[|p.patientId|] == ',';
      assert line[..|p.patientId|] == p.patientId by {
        assert line[..|prefix|][..|p.patientId|] == prefix[..|p.patientId|];
      }
      IndexOfFirst(line, ',', |p.patientId|);
    }
    if ',' in line && FirstColumn(line) == p.patientId {
      var k := IndexOf(line, ',');
      assert line[..k + 1] == line[..k] + [line[k]];
    }
  }

  lemma PatientCsvStartsWithId(p: Patient)
    ensures StartsWith(PatientCsv(p), p.patientId + ",")
  {
    var columns := Columns(p);
    assert PatientCsv(p) == p.patientId + [','] + Join(columns[1..], ',');
    assert (p.patientId + [','] + Join(columns[1..], ','))[..|p.patientId| + 1] == p.patientId + ",";
  }

  /** Rewriting twice with the same record writes what rewriting once did. */
  lemma RewriteTableIdempotent(lines: seq<string>, p: Patient)
    requires lines != []
    ensures RewriteTable(RewriteTable(lines, p), p) == RewriteTable(lines, p)
  {
    PatientCsvStartsWithId(p);
    var once := RewriteTable(lines, p);
    var twice := RewriteTable(once, p);
    forall i | 1 <= i < |lines| ensures twice[i] == once[i] {
      if StartsWith(lines[i], p.patientId + ",") {
        assert once[i] == PatientCsv(p);
      }
    }
  }

  /** Lines of other patients, and the header, are written back unchanged;
      rewritten lines read back as the patient's record. */
  lemma RewriteTableEffect(lines: seq<string>, p: Patient, i: nat)
    requires lines != [] && i < |lines| && CsvSafe(p)
    ensures i == 0 || !(',' in lines[i] && FirstColumn(lines[i]) == p.patientId) ==> RewriteTable(lines, p)[i] == lines[i]
    ensures i >= 1 && ',' in lines[i] && FirstColumn(lines[i]) == p.patientId ==>
      var values := JavaSplit(RewriteTable(lines, p)[i], ',');
      |values| == 12 && RowToPatient(values) == Ok(p)
  {
    RewriteLineIff(lines[i], p);
    CsvRoundTrip(p);
  }
}
