/** `DiseaseService`: the disease catalog read from `catalog.csv`, the FASTA
    files it names, the threshold scan of a patient genome against every
    catalog entry, and the CSV field escaper of the detection report. The
    database directory is a map from file name to file; a name that is not a
    key is a file that does not exist. */
module DiseaseService {
  import opened Wrappers
  import opened Common
  import opened JavaText
  import SequenceAligner

  datatype Disease = Disease(diseaseId: string, name: string, severity: int, fastaFilename: string)

  /** A file of the database directory: its text, or a file whose read raises
      an `IOException`. */
  datatype FileEntry = Contents(text: string) | Unreadable

  type FileStore = map<string, FileEntry>

  /** The loaded catalog, keyed by disease id, and the directory it reads from. */
  datatype DiseaseDb = DiseaseDb(diseases: map<string, Disease>, files: FileStore)
  {
    /** Every entry sits under its own id, as `put(disease.getDiseaseId(), disease)` leaves it. */
    predicate Valid()
    {
      forall k :: k in diseases ==> diseases[k].diseaseId == k
    }
  }

  /** `DiseaseMatchResult` without its formatted description. */
  datatype MatchResult = MatchResult(disease: Disease, similarity: real)

  // ---------------------------------------------------------------- catalog rows

  const FastaSuffix: string := ".fasta"

  /** One data row of the catalog: `id,name,severity[,file]`, each field trimmed.
      A row with fewer than three fields is skipped; a severity that is not an
      `int` raises the `NumberFormatException` that aborts the whole load. */
  function ParseCatalogRow(line: string): (r: Result<Option<Disease>, Failure>)
    ensures |JavaSplit(line, ',')| < 3 ==> r == Ok(None)
    ensures r.Ok? && r.value.Some? ==> |JavaSplit(line, ',')| >= 3
  {
    var values := JavaSplit(line, ',');
    if |values| < 3 then Ok(None)
    else
      var severityText := Trim(values[2]);
      match ParseInt(severityText)
      case None => Err(NumberFormatError(severityText))
      case Some(severity) =>
        var id := Trim(values[0]);
        var filename := if |values| > 3 then Trim(values[3]) else id + FastaSuffix;
        Ok(Some(Disease(id, Trim(values[1]), severity, filename)))
  }

  /** A row is refused exactly when it has a third field that is not an `int`. */
  lemma ParseCatalogRowFails(line: string)
    ensures ParseCatalogRow(line).Err? <==> |JavaSplit(line, ',')| >= 3 && ParseInt(Trim(JavaSplit(line, ',')[2])).None?
  {
  }

  /** A data row as `ParseCatalogRow` reads it. */
  type Row = Result<Option<Disease>, Failure>

  /** The data rows of the catalog, the header line skipped, each read on its own. */
  function ParsedRows(lines: seq<string>): (rows: seq<Row>)
    ensures |rows| == if lines == [] then 0 else |lines| - 1
    ensures forall i :: 0 <= i < |rows| ==> rows[i] == ParseCatalogRow(lines[i + 1])
  {
    var data := if lines == [] then [] else lines[1..];
    seq(|data|, i requires 0 <= i < |data| => ParseCatalogRow(data[i]))
  }

  /** The catalog after the `put`s of the first `n` data rows, or the exception
      that ended the loop. */
  function LoadCatalogRows(rows: seq<Row>, n: nat): Result<map<string, Disease>, Failure>
    requires n <= |rows|
  {
    if n == 0 then Ok(map[])
    else match LoadCatalogRows(rows, n - 1)
      case Err(e) => Err(e)
      case Ok(diseases) =>
        match rows[n - 1]
        case Err(e) => Err(e)
        case Ok(None) => Ok(diseases)
        case Ok(Some(d)) => Ok(diseases[d.diseaseId := d])
  }

  /** The map `loadDiseasesFromCatalog` builds from the catalog's lines; a
      catalog that does not exist, or an empty one, leaves the map empty. */
  function CatalogOf(catalog: Option<seq<string>>): Result<map<string, Disease>, Failure>
  {
    if catalog.None? then Ok(map[])
    else
      var rows := ParsedRows(catalog.value);
      LoadCatalogRows(rows, |rows|)
  }

  /** `new DiseaseService()`: the catalog lines as `readLine` returns them, or
      `None` when `catalog.csv` does not exist, and the database directory. */
  method LoadDiseasesFromCatalog(catalog: Option<seq<string>>, files: FileStore) returns (r: Result<DiseaseDb, Failure>)
    ensures r.Ok? <==> CatalogOf(catalog).Ok?
    ensures r.Ok? ==> r.value == DiseaseDb(CatalogOf(catalog).value, files) && r.value.Valid()
    ensures r.Err? ==> r.error == CatalogOf(catalog).error
  {
    if catalog.None? || catalog.value == [] {
      return Ok(DiseaseDb(map[], files));
    }
    var rows := ParsedRows(catalog.value);
    var loaded := PutRows(rows);
    if loaded.Err? {
      return Err(loaded.error);
    }
    CatalogRowsIds(rows, |rows|);
    return Ok(DiseaseDb(loaded.value, files));
  }

  /** The read loop of `loadDiseasesFromCatalog` over the data rows: each row
      `put` in turn, the first refused row ending the load. Reading a row has
      no effect, so the rows come in already read. */
  method PutRows(rows: seq<Row>) returns (r: Result<map<string, Disease>, Failure>)
    ensures r == LoadCatalogRows(rows, |rows|)
  {
    var diseases: map<string, Disease> := map[];
    var i := 0;
    while i < |rows|
      invariant 0 <= i <= |rows|
      invariant LoadCatalogRows(rows, i) == Ok(diseases)
    {
      var row := rows[i];
      CatalogRowsNext(rows, i, diseases);
      if row.Err? {
        CatalogRowsStop(rows, i + 1, |rows|);
        return Err(row.error);
      }
      if row.value.Some? {
        var disease := row.value.value;
        diseases := diseases[disease.diseaseId := disease];
      }
      i := i + 1;
    }
    return Ok(diseases);
  }

  // ---------------------------------------------------------------- catalog properties

  /** One step of the load: what the next data row does to the map built so far. */
  lemma CatalogRowsNext(rows: seq<Row>, n: nat, diseases: map<string, Disease>)
    requires n < |rows| && LoadCatalogRows(rows, n) == Ok(diseases)
    ensures rows[n].Err? ==> LoadCatalogRows(rows, n + 1) == Err(rows[n].error)
    ensures rows[n] == Ok(None) ==> LoadCatalogRows(rows, n + 1) == Ok(diseases)
    ensures rows[n].Ok? && rows[n].value.Some? ==>
      LoadCatalogRows(rows, n + 1) == Ok(diseases[rows[n].value.value.diseaseId := rows[n].value.value])
  {
  }

  /** A refused row ends the load: later rows change nothing. */
  lemma {:induction false} CatalogRowsStop(rows: seq<Row>, n: nat, m: nat)
    requires n <= m <= |rows| && LoadCatalogRows(rows, n).Err?
    ensures LoadCatalogRows(rows, m) == LoadCatalogRows(rows, n)
    decreases m
  {
    if m > n {
      CatalogRowsStop(rows, n, m - 1);
    }
  }

  /** The row that decides an id among the first `n` data rows: the last one
      that parses to a disease with that id. */
  function LatestRow(rows: seq<Row>, n: nat, id: string): (r: Option<Disease>)
    requires n <= |rows|
    ensures r.Some? ==> r.value.diseaseId == id
  {
    if n == 0 then None
    else if rows[n - 1].Ok? && rows[n - 1].value.Some? && rows[n - 1].value.value.diseaseId == id then rows[n - 1].value
    else LatestRow(rows, n - 1, id)
  }

  /** A successful load holds exactly the ids some row names, each with the
      disease of the last row naming it. */
  lemma {:induction false} CatalogRowsLatest(rows: seq<Row>, n: nat, id: string)
    requires n <= |rows| && LoadCatalogRows(rows, n).Ok?
    ensures id in LoadCatalogRows(rows, n).value <==> LatestRow(rows, n, id).Some?
    ensures id in LoadCatalogRows(rows, n).value ==> LoadCatalogRows(rows, n).value[id] == LatestRow(rows, n, id).value
  {
    if n > 0 {
      CatalogRowsLatest(rows, n - 1, id);
    }
  }

  /** Every disease a successful load holds sits under its own id. */
  lemma {:induction false} CatalogRowsIds(rows: seq<Row>, n: nat)
    requires n <= |rows| && LoadCatalogRows(rows, n).Ok?
    ensures forall k :: k in LoadCatalogRows(rows, n).value ==> LoadCatalogRows(rows, n).value[k].diseaseId == k
  {
    if n > 0 {
      CatalogRowsIds(rows, n - 1);
    }
  }

  /** The load fails exactly when one of the rows read is refused. */
  lemma {:induction false} CatalogRowsFail(rows: seq<Row>, n: nat)
    requires n <= |rows|
    ensures LoadCatalogRows(rows, n).Err? <==> exists i :: 0 <= i < n && rows[i].Err?
  {
    if n > 0 {
      CatalogRowsFail(rows, n - 1);
      if rows[n - 1].Err? {
        assert exists i :: 0 <= i < n && rows[i].Err?;
      }
    }
  }

  /** The loaded catalog: it fails exactly when a data row is refused, and
      otherwise every id it holds is that of the last row naming it, and every
      disease sits under its own id. */
  lemma CatalogContents(lines: seq<string>, id: string)
    requires lines != []
    ensures CatalogOf(Some(lines)).Err? <==> exists i :: 0 <= i < |ParsedRows(lines)| && ParsedRows(lines)[i].Err?
    ensures CatalogOf(Some(lines)).Ok? ==>
      (id in CatalogOf(Some(lines)).value <==> LatestRow(ParsedRows(lines), |lines| - 1, id).Some?)
    ensures CatalogOf(Some(lines)).Ok? && id in CatalogOf(Some(lines)).value ==>
      CatalogOf(Some(lines)).value[id] == LatestRow(ParsedRows(lines), |lines| - 1, id).value
      && CatalogOf(Some(lines)).value[id].diseaseId == id
  {
    var rows := ParsedRows(lines);
    CatalogRowsFail(rows, |rows|);
    if LoadCatalogRows(rows, |rows|).Ok? {
      CatalogRowsLatest(rows, |rows|, id);
    }
  }

  /** The text of a catalog row with the given fields. */
  function CatalogRow(id: string, name: string, severity: int, file: Option<string>): string
  {
    var fields := [id, name, IntToString(severity)];
    Join(if file.Some? then fields + [file.value] else fields, ',')
  }

  /** A row of comma-free fields yields the disease of its trimmed fields: the
      file is the trimmed fourth field when there is one, otherwise the
      trimmed id followed by `.fasta`. */
  lemma CatalogRowRead(id: string, name: string, severity: string, file: Option<string>, n: int)
    requires ',' !in id && ',' !in name && ',' !in severity
    requires file.Some? ==> file.value != [] && ',' !in file.value
    requires ParseInt(Trim(severity)) == Some(n)
    ensures var fields := if file.Some? then [id, name, severity, file.value] else [id, name, severity];
      ParseCatalogRow(Join(fields, ','))
        == Ok(Some(Disease(Trim(id), Trim(name), n, if file.Some? then Trim(file.value) else Trim(id) + FastaSuffix)))
  {
    var fields := if file.Some? then [id, name, severity, file.value] else [id, name, severity];
    JavaSplitJoin(fields, ',');
  }

  /** A three-field row names the file after the disease id. */
  lemma DefaultFilename(id: string, name: string, severity: int)
    requires id != [] && !IsTrimmable(id[0]) && !IsTrimmable(id[|id| - 1]) && ',' !in id
    requires ',' !in name && IntMin <= severity <= IntMax
    ensures ParseCatalogRow(CatalogRow(id, name, severity, None)).Ok?
    ensures var d := ParseCatalogRow(CatalogRow(id, name, severity, None)).value;
            d.Some? && d.value.diseaseId == id && d.value.severity == severity
            && d.value.fastaFilename == id + ".fasta" && d.value.name == Trim(name)
  {
    var sev := IntToString(severity);
    SeverityField(severity);
    JavaSplitJoin([id, name, sev], ',');
    TrimUnchanged(id);
    ParseIntegerOfIntToString(severity);
    TrimUnchanged(sev);
  }

  /** The decimal text of a severity has no comma, no surrounding blanks and no empty form. */
  lemma SeverityField(severity: int)
    ensures var s := IntToString(severity);
      s != [] && ',' !in s && !IsTrimmable(s[0]) && !IsTrimmable(s[|s| - 1])
  {
    var s := IntToString(severity);
    var digits := NatToString(if severity < 0 then -severity else severity);
    assert forall k :: 0 <= k < |digits| ==> IsDigit(digits[k]);
    if severity < 0 {
      assert s == "-" + digits;
      assert s[|s| - 1] == digits[|digits| - 1];
    }
  }

  // ---------------------------------------------------------------- lookups

  /** `getDisease(diseaseId)` */
  function GetDisease(db: DiseaseDb, diseaseId: string): (r: Option<Disease>)
    ensures r.Some? <==> diseaseId in db.diseases
    ensures db.Valid() && r.Some? ==> r.value.diseaseId == diseaseId
  {
    if diseaseId in db.diseases then Some(db.diseases[diseaseId]) else None
  }

  /** `getDiseaseSequence(diseaseId)`: `None` (Java `null`) for an unknown id or
      a missing file; a read error carries the name of the file concerned. */
  function GetDiseaseSequence(db: DiseaseDb, diseaseId: string): (r: Result<Option<string>, string>)
    ensures r.Ok? && r.value.Some? <==>
      diseaseId in db.diseases && db.diseases[diseaseId].fastaFilename in db.files
      && db.files[db.diseases[diseaseId].fastaFilename].Contents?
    ensures r.Err? <==>
      diseaseId in db.diseases && db.diseases[diseaseId].fastaFilename in db.files
      && db.files[db.diseases[diseaseId].fastaFilename].Unreadable?
    ensures r.Ok? && r.value.Some? ==> r.value.value == db.files[db.diseases[diseaseId].fastaFilename].text
  {
    match GetDisease(db, diseaseId)
    case None => Ok(None)
    case Some(disease) =>
      var filename := disease.fastaFilename;
      if filename !in db.files then Ok(None)
      else match db.files[filename]
        case Unreadable => Err(filename)
        case Contents(text) => Ok(Some(text))
  }

  // ---------------------------------------------------------------- sequence cleaning

  /** The text after the header line, for the text that follows `>`: the first
      line terminator must be `\n`, because the regex `.` matches none of them. */
  function HeaderRest(s: string): (r: Option<string>)
    ensures r.Some? ==> |r.value| < |s| && s[|s| - |r.value| - 1] == '\n'
    decreases |s|
  {
    if s == [] then None
    else if s[0] == '\n' then Some(s[1..])
    else if IsLineTerminator(s[0]) then None
    else HeaderRest(s[1..])
  }

  /** `replaceAll("^>.*\\n", "")`: a `>` line at the very start of the text is removed. */
  function StripHeader(text: string): (r: string)
    ensures |r| <= |text|
    ensures r != text ==> text != [] && text[0] == '>'
  {
    if text != [] && text[0] == '>' then
      match HeaderRest(text[1..])
      case Some(rest) => rest
      case None => text
    else text
  }

  /** `replaceAll("\\n", "")` */
  function DeleteNewlines(s: string): (r: string)
    ensures '\n' !in r && |r| <= |s|
    ensures '\n' !in s ==> r == s
  {
    if s == [] then []
    else (if s[0] == '\n' then [] else [s[0]]) + DeleteNewlines(s[1..])
  }

  /** The cleaning applied to both sequences before a comparison. */
  function CleanSequence(text: string): (r: string)
    ensures '\n' !in r
  {
    DeleteNewlines(StripHeader(text))
  }

  lemma {:induction false} HeaderRestOf(h: string, body: string)
    requires forall i :: 0 <= i < |h| ==> !IsLineTerminator(h[i])
    ensures HeaderRest(h + "\n" + body) == Some(body)
    decreases |h|
  {
    if h == [] {
      assert h + "\n" + body == "\n" + body;
    } else {
      assert (h + "\n" + body)[1..] == h[1..] + "\n" + body;
      HeaderRestOf(h[1..], body);
    }
  }

  lemma {:induction false} HeaderRestNone(s: string)
    requires '\n' !in s
    ensures HeaderRest(s) == None
    decreases |s|
  {
    if s != [] {
      assert s[0] in s;
      assert forall c :: c in s[1..] ==> c in s;
      HeaderRestNone(s[1..]);
    }
  }

  /** A `>` line ended by `\n` goes, and so do the newlines of the body. */
  lemma CleanFasta(h: string, body: string)
    requires forall i :: 0 <= i < |h| ==> !IsLineTerminator(h[i])
    ensures CleanSequence(">" + h + "\n" + body) == DeleteNewlines(body)
  {
    var text := ">" + h + "\n" + body;
    assert text[1..] == h + "\n" + body;
    HeaderRestOf(h, body);
  }

  /** Text that does not start with `>` only loses its newlines, whatever `>`
      lines it holds further down. */
  lemma CleanWithoutLeadingHeader(text: string)
    requires text == [] || text[0] != '>'
    ensures CleanSequence(text) == DeleteNewlines(text)
  {
  }

  /** A header ended by `\r\n` does not match `.*\n`, so it stays in the
      sequence, less its newline. */
  lemma CarriageReturnHeaderKept(h: string, body: string)
    requires '\n' !in h && '\n' !in body
    ensures CleanSequence(">" + h + "\r\n" + body) == ">" + h + "\r" + body
  {
    var line := ">" + h + "\r";
    var text := line + "\n" + body;
    assert text == ">" + h + "\r\n" + body;
    assert StripHeader(text) == text by {
      assert text[1..] == h + "\r" + ("\n" + body);
      HeaderRestStopsAtReturn(h, "\n" + body);
    }
    assert DeleteNewlines(text) == line + body by {
      var tail := "\n" + body;
      assert text == line + tail;
      assert '\n' !in line;
      DeleteNewlinesSplit(line, tail);
      assert tail[0] == '\n' && tail[1..] == body;
      assert DeleteNewlines(tail) == body;
    }
  }

  lemma {:induction false} HeaderRestStopsAtReturn(h: string, rest: string)
    requires '\n' !in h
    ensures HeaderRest(h + "\r" + rest) == None
    decreases |h|
  {
    if h == [] {
      assert (h + "\r" + rest)[0] == '\r';
    } else {
      assert h[0] in h;
      assert (h + "\r" + rest)[0] == h[0];
      assert (h + "\r" + rest)[1..] == h[1..] + "\r" + rest;
      assert forall c :: c in h[1..] ==> c in h;
      HeaderRestStopsAtReturn(h[1..], rest);
    }
  }

  lemma {:induction false} DeleteNewlinesSplit(a: string, b: string)
    ensures DeleteNewlines(a + b) == DeleteNewlines(a) + DeleteNewlines(b)
    decreases |a|
  {
    if a == [] {
      assert a + b == b;
    } else {
      assert (a + b)[0] == a[0];
      assert (a + b)[1..] == a[1..] + b;
      DeleteNewlinesSplit(a[1..], b);
    }
  }

  /** Cleaning twice is cleaning once: nothing is left for either step. */
  lemma CleanSequenceIdempotent(text: string)
    ensures CleanSequence(CleanSequence(text)) == CleanSequence(text)
  {
    var c := CleanSequence(text);
    if c != [] && c[0] == '>' {
      assert c[1..] == c[1..];
      assert forall ch :: ch in c[1..] ==> ch in c;
      HeaderRestNone(c[1..]);
    }
  }

  // ---------------------------------------------------------------- scan

  /** The text the scan compares against, or `None` when the disease is skipped. */
  function ScanSequence(db: DiseaseDb, disease: Disease): Option<string>
  {
    match GetDiseaseSequence(db, disease.diseaseId)
    case Ok(Some(text)) => Some(text)
    case _ => None
  }

  /** What `checkForMatches` reports for one disease: a sequence exists, the
      cleaned patient is at least half as long as the cleaned disease, and
      their similarity reaches the threshold. */
  function MatchOf(db: DiseaseDb, disease: Disease, patientGenome: string, threshold: real): (r: Option<MatchResult>)
    ensures r.Some? ==> r.value.disease == disease && r.value.similarity >= threshold
    ensures r.Some? ==> 0.0 <= r.value.similarity <= 1.0
  {
    match ScanSequence(db, disease)
    case None => None
    case Some(text) =>
      var diseaseSeq := CleanSequence(text);
      var patientSeq := CleanSequence(patientGenome);
      var similarity := SequenceAligner.Similarity(patientSeq, diseaseSeq);
      if 2 * |patientSeq| >= |diseaseSeq| && similarity >= threshold then Some(MatchResult(disease, similarity))
      else None
  }

  /** One turn of the scan loop. */
  method CompareWith(db: DiseaseDb, disease: Disease, patientGenome: string, similarityThreshold: real)
    returns (m: Option<MatchResult>)
    ensures m == MatchOf(db, disease, patientGenome, similarityThreshold)
  {
    var text := GetDiseaseSequence(db, disease.diseaseId);
    if text.Err? || text.value.None? {
      return None;
    }
    var diseaseSeq := CleanSequence(text.value.value);
    var patientSeq := CleanSequence(patientGenome);
    var potential := SequenceAligner.IsPotentialMatch(patientSeq, diseaseSeq, similarityThreshold);
    if !potential {
      return None;
    }
    var similarity := SequenceAligner.CalculateSimilarity(patientSeq, diseaseSeq);
    if similarity >= similarityThreshold {
      return Some(MatchResult(disease, similarity));
    }
    return None;
  }

  function MatchedIds(matches: seq<MatchResult>): set<string>
  {
    set i | 0 <= i < |matches| :: matches[i].disease.diseaseId
  }

  /** A reported match is that of the catalog entry it names. */
  predicate Reported(db: DiseaseDb, m: MatchResult, patientGenome: string, threshold: real)
  {
    m.disease.diseaseId in db.diseases && MatchOf(db, db.diseases[m.disease.diseaseId], patientGenome, threshold) == Some(m)
  }

  /** The entries among `keys` whose match qualifies. */
  function Qualifying(db: DiseaseDb, keys: set<string>, patientGenome: string, threshold: real): set<string>
    requires keys <= db.diseases.Keys
  {
    set k | k in keys && MatchOf(db, db.diseases[k], patientGenome, threshold).Some?
  }

  lemma QualifyingAdd(db: DiseaseDb, keys: set<string>, key: string, patientGenome: string, threshold: real)
    requires keys <= db.diseases.Keys && key in db.diseases
    ensures Qualifying(db, keys + {key}, patientGenome, threshold)
      == Qualifying(db, keys, patientGenome, threshold)
         + if MatchOf(db, db.diseases[key], patientGenome, threshold).Some? then {key} else {}
  {
  }

  /** What the scan has established once it has visited the entries `done`. */
  predicate Scanned(db: DiseaseDb, matches: seq<MatchResult>, done: set<string>, patientGenome: string, threshold: real)
  {
    && done <= db.diseases.Keys
    && MatchedIds(matches) == Qualifying(db, done, patientGenome, threshold)
    && (forall i :: 0 <= i < |matches| ==> Reported(db, matches[i], patientGenome, threshold))
    && (forall i, j :: 0 <= i < j < |matches| ==> matches[i].disease.diseaseId != matches[j].disease.diseaseId)
  }

  /** Visiting one more entry adds it to the matched ids exactly when it qualifies. */
  lemma ScanIds(db: DiseaseDb, matches: seq<MatchResult>, done: set<string>, key: string,
                patientGenome: string, threshold: real)
    requires db.Valid() && done <= db.diseases.Keys && key in db.diseases
    requires MatchedIds(matches) == Qualifying(db, done, patientGenome, threshold)
    ensures var found := MatchOf(db, db.diseases[key], patientGenome, threshold);
      MatchedIds(if found.Some? then matches + [found.value] else matches)
        == Qualifying(db, done + {key}, patientGenome, threshold)
  {
    var found := MatchOf(db, db.diseases[key], patientGenome, threshold);
    QualifyingAdd(db, done, key, patientGenome, threshold);
    if found.Some? {
      assert found.value.disease.diseaseId == key;
      MatchedIdsAppend(matches, found.value);
    }
  }

  /** Appending a match of a disease not yet matched names no disease twice. */
  lemma DistinctAppend(matches: seq<MatchResult>, m: MatchResult)
    requires forall i, j :: 0 <= i < j < |matches| ==> matches[i].disease.diseaseId != matches[j].disease.diseaseId
    requires m.disease.diseaseId !in MatchedIds(matches)
    ensures var after := matches + [m];
      forall i, j :: 0 <= i < j < |after| ==> after[i].disease.diseaseId != after[j].disease.diseaseId
  {
    forall i | 0 <= i < |matches| ensures matches[i].disease.diseaseId != m.disease.diseaseId {
      MatchedIdsMember(matches, i);
    }
  }

  /** Appending a reported match keeps every match reported. */
  lemma ReportedAppend(db: DiseaseDb, matches: seq<MatchResult>, m: MatchResult, patientGenome: string, threshold: real)
    requires forall i :: 0 <= i < |matches| ==> Reported(db, matches[i], patientGenome, threshold)
    requires Reported(db, m, patientGenome, threshold)
    ensures var after := matches + [m];
      forall i :: 0 <= i < |after| ==> Reported(db, after[i], patientGenome, threshold)
  {
    var after := matches + [m];
    assert forall i :: 0 <= i < |matches| ==> after[i] == matches[i];
  }

  /** Visiting one more entry, and keeping its match if it has one, keeps what
      the scan has established. */
  lemma ScanStep(db: DiseaseDb, matches: seq<MatchResult>, done: set<string>, key: string,
                 patientGenome: string, threshold: real)
    requires db.Valid() && Scanned(db, matches, done, patientGenome, threshold)
    requires key in db.diseases && key !in done
    ensures var found := MatchOf(db, db.diseases[key], patientGenome, threshold);
      Scanned(db, if found.Some? then matches + [found.value] else matches, done + {key}, patientGenome, threshold)
  {
    var found := MatchOf(db, db.diseases[key], patientGenome, threshold);
    ScanIds(db, matches, done, key, patientGenome, threshold);
    if found.Some? {
      assert key !in MatchedIds(matches);
      DistinctAppend(matches, found.value);
      ReportedAppend(db, matches, found.value, patientGenome, threshold);
    }
  }

  /** `checkForMatches(patientGenome, similarityThreshold)`: each catalog
      disease at most once, exactly those that qualify, in the map's own order. */
  method CheckForMatches(db: DiseaseDb, patientGenome: string, similarityThreshold: real)
    returns (matches: seq<MatchResult>)
    requires db.Valid()
    ensures MatchedIds(matches) == Qualifying(db, db.diseases.Keys, patientGenome, similarityThreshold)
    ensures forall i :: 0 <= i < |matches| ==> Reported(db, matches[i], patientGenome, similarityThreshold)
    ensures forall i, j :: 0 <= i < j < |matches| ==> matches[i].disease.diseaseId != matches[j].disease.diseaseId
  {
    matches := [];
    var remaining := db.diseases.Keys;
    ghost var done: set<string> := {};
    while remaining != {}
      invariant remaining + done == db.diseases.Keys && remaining !! done
      invariant Scanned(db, matches, done, patientGenome, similarityThreshold)
      decreases remaining
    {
      var key :| key in remaining;
      var disease := db.diseases[key];
      var found := CompareWith(db, disease, patientGenome, similarityThreshold);
      ScanStep(db, matches, done, key, patientGenome, similarityThreshold);
      if found.Some? {
        matches := matches + [found.value];
      }
      remaining := remaining - {key};
      done := done + {key};
    }
  }

  lemma MatchedIdsMember(matches: seq<MatchResult>, i: int)
    requires 0 <= i < |matches|
    ensures matches[i].disease.diseaseId in MatchedIds(matches)
  {
  }

  lemma MatchedIdsAppend(matches: seq<MatchResult>, m: MatchResult)
    ensures MatchedIds(matches + [m]) == MatchedIds(matches) + {m.disease.diseaseId}
  {
    var after := matches + [m];
    forall id | id in MatchedIds(after) ensures id in MatchedIds(matches) + {m.disease.diseaseId} {
      var i :| 0 <= i < |after| && after[i].disease.diseaseId == id;
      if i < |matches| {
        assert after[i] == matches[i];
      }
    }
    forall id | id in MatchedIds(matches) ensures id in MatchedIds(after) {
      var i :| 0 <= i < |matches| && matches[i].disease.diseaseId == id;
      assert after[i] == matches[i];
    }
    assert after[|matches|] == m;
  }

  // ---------------------------------------------------------------- CSV escaping

  /** `value.replace("\"", "\"\"")` */
  function DoubleQuotes(s: string): (r: string)
    ensures |r| >= |s|
  {
    if s == [] then []
    else (if s[0] == '"' then "\"\"" else [s[0]]) + DoubleQuotes(s[1..])
  }

  /** `escapeCsv(value)`: `null` is empty; a value holding a comma or a quote
      is enclosed in quotes with its quotes doubled; anything else is kept. */
  function EscapeCsv(value: Option<string>): (r: string)
    ensures value.None? ==> r == ""
    ensures value.Some? && ',' !in value.value && '"' !in value.value ==> r == value.value
    ensures value.Some? && (',' in value.value || '"' in value.value) ==>
      |r| >= |value.value| + 2 && r[0] == '"' && r[|r| - 1] == '"'
  {
    match value
    case None => ""
    case Some(v) => if ',' in v || '"' in v then "\"" + DoubleQuotes(v) + "\"" else v
  }

  /** Reading the inside of a quoted field up to its closing quote, by RFC 4180
      section 2 item 7: a doubled quote stands for one quote, a single quote
      closes the field, and nothing may follow it. */
  function ReadQuoted(s: string): Option<string>
    decreases |s|
  {
    if s == [] then None
    else if s[0] == '"' then
      if |s| == 1 then Some([])
      else if s[1] == '"' then
        match ReadQuoted(s[2..])
        case Some(rest) => Some(['"'] + rest)
        case None => None
      else None
    else
      match ReadQuoted(s[1..])
      case Some(rest) => Some([s[0]] + rest)
      case None => None
  }

  /** The field a CSV reader decodes by RFC 4180 section 2 items 5 to 7: an
      enclosed field is read by `ReadQuoted`, a bare one must hold no quote. */
  function DecodeField(field: string): Option<string>
  {
    if field != [] && field[0] == '"' then ReadQuoted(field[1..])
    else if '"' in field then None
    else Some(field)
  }

  lemma {:induction false} ReadQuotedOfDoubled(v: string)
    ensures ReadQuoted(DoubleQuotes(v) + "\"") == Some(v)
    decreases |v|
  {
    if v == [] {
      assert DoubleQuotes(v) + "\"" == "\"";
    } else {
      var rest := DoubleQuotes(v[1..]) + "\"";
      ReadQuotedOfDoubled(v[1..]);
      if v[0] == '"' {
        assert DoubleQuotes(v) + "\"" == "\"\"" + rest;
        assert ("\"\"" + rest)[2..] == rest;
      } else {
        assert DoubleQuotes(v) + "\"" == [v[0]] + rest;
        assert ([v[0]] + rest)[1..] == rest;
      }
      assert [v[0]] + v[1..] == v;
    }
  }

  /** Decoding an escaped field recovers the value. */
  lemma EscapeCsvRoundTrip(v: string)
    ensures DecodeField(EscapeCsv(Some(v))) == Some(v)
  {
    if ',' in v || '"' in v {
      var e := "\"" + DoubleQuotes(v) + "\"";
      assert e[1..] == DoubleQuotes(v) + "\"";
      ReadQuotedOfDoubled(v);
    } else if v != [] {
      assert v[0] in v;
    }
  }

  /** A value holding a quote can only travel enclosed: written bare it would not decode. */
  lemma BareQuoteRejected(v: string)
    requires '"' in v && v[0] != '"'
    ensures DecodeField(v) == None
  {
  }

  // ---------------------------------------------------------------- detection report

  /** One line of `disease_detections.csv`, without its timestamp and its
      description. */
  datatype DetectionReport = DetectionReport(
    patientId: string,
    diseaseId: string,
    diseaseName: string,
    severity: int,
    similarity: real)

  /** `generateDiseaseReport(patientId, matchResult)`: of the fields modelled,
      only the disease name is escaped (the description, also escaped, is not
      modelled); a reader recovers the name exactly. */
  function ReportOf(patientId: string, m: MatchResult): (r: DetectionReport)
    ensures r.patientId == patientId && r.diseaseId == m.disease.diseaseId
    ensures r.severity == m.disease.severity && r.similarity == m.similarity
    ensures DecodeField(r.diseaseName) == Some(m.disease.name)
  {
    EscapeCsvRoundTrip(m.disease.name);
    DetectionReport(patientId, m.disease.diseaseId, EscapeCsv(Some(m.disease.name)), m.disease.severity, m.similarity)
  }

  /** The report rows for a list of matches, one per match, in order. */
  function ReportsOf(patientId: string, matches: seq<MatchResult>): (r: seq<DetectionReport>)
    ensures |r| == |matches|
    ensures forall i :: 0 <= i < |matches| ==> r[i] == ReportOf(patientId, matches[i])
  {
    if matches == [] then []
    else ReportsOf(patientId, matches[..|matches| - 1]) + [ReportOf(patientId, matches[|matches| - 1])]
  }
}
