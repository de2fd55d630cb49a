/** `ValidationUtil`: the metadata rules for a patient record and the upload
    size ceiling. The checks run in a fixed order and the first one that fails
    decides the message; every rejection carries INVALID_FORMAT, while a field
    of the wrong JSON type makes org.json throw before any rule is applied. */
module ValidationUtil {
  import opened Wrappers
  import opened Common
  import opened JavaText
  import opened Json

  function FormatError(message: string): Outcome<Failure>
  {
    Fail(ProtocolError(InvalidFormat, message))
  }

  // ---------------------------------------------------------------- single rules

  /** `!metadata.has(key) || metadata.getString(key).trim().isEmpty()` is false. */
  function CheckText(m: JsonObject, key: string, message: string): (r: Outcome<Failure>)
    ensures r.Pass? <==> key in m && m[key].JString? && Trim(m[key].s) != []
    ensures r.Fail? && r.error.RuntimeError? <==> key in m && !m[key].JString?
    ensures r.Fail? && r.error.ProtocolError? ==> r == FormatError(message)
  {
    if !Has(m, key) then FormatError(message)
    else match GetString(m, key)
      case Err(e) => Fail(e)
      case Ok(s) => if Trim(s) == [] then FormatError(message) else Pass
  }

  /** `age` must read as an `int` between 1 and 150 inclusive. */
  function CheckAge(m: JsonObject): (r: Outcome<Failure>)
    ensures r.Pass? <==> GetInt(m, "age").Ok? && 1 <= GetInt(m, "age").value <= 150
    ensures r.Fail? && r.error.RuntimeError? <==> "age" in m && GetInt(m, "age").Err?
    ensures r.Fail? && r.error.ProtocolError? ==> r == FormatError("Valid age is required (1-150)")
  {
    if !Has(m, "age") then FormatError("Valid age is required (1-150)")
    else match GetInt(m, "age")
      case Err(e) => Fail(e)
      case Ok(age) => if age <= 0 || age > 150 then FormatError("Valid age is required (1-150)") else Pass
  }

  /** `sex.matches("^[MF]$")`: the whole string is one of the two letters. */
  predicate IsSex(s: string)
  {
    s == "M" || s == "F"
  }

  function CheckSex(m: JsonObject): (r: Outcome<Failure>)
    ensures r.Pass? <==> "sex" in m && m["sex"].JString? && IsSex(m["sex"].s)
    ensures r.Fail? && r.error.RuntimeError? <==> "sex" in m && !m["sex"].JString?
    ensures r.Fail? && r.error.ProtocolError? ==> r == FormatError("Sex must be 'M' or 'F'")
  {
    if !Has(m, "sex") then FormatError("Sex must be 'M' or 'F'")
    else match GetString(m, "sex")
      case Err(e) => Fail(e)
      case Ok(s) => if !IsSex(s) then FormatError("Sex must be 'M' or 'F'") else Pass
  }

  /** The characters of `[A-Za-z0-9+_.-]`. */
  predicate IsLocalChar(c: char)
  {
    'A' <= c <= 'Z' || 'a' <= c <= 'z' || '0' <= c <= '9' || c == '+' || c == '_' || c == '.' || c == '-'
  }

  /** `isValidEmail(email)`: the text before the first `@` is a non-empty run of
      local characters and the text after it is non-empty and on one line. */
  predicate IsValidEmail(email: string)
  {
    '@' in email &&
    var at := IndexOf(email, '@');
    1 <= at && at + 1 < |email| &&
    (forall i :: 0 <= i < at ==> IsLocalChar(email[i])) &&
    (forall i :: at < i < |email| ==> !IsLineTerminator(email[i]))
  }

  /** The language of `^[A-Za-z0-9+_.-]+@(.+)$`: some `@` splits the address into
      a local part and a domain part of the required shapes. */
  predicate MatchesEmailPattern(email: string)
  {
    exists at :: 1 <= at < |email| - 1 && email[at] == '@' &&
      (forall i :: 0 <= i < at ==> IsLocalChar(email[i])) &&
      (forall i :: at < i < |email| ==> !IsLineTerminator(email[i]))
  }

  /** The scan for the first `@` decides exactly the regular expression. */
  lemma IsValidEmailIff(email: string)
    ensures IsValidEmail(email) <==> MatchesEmailPattern(email)
  {
    if IsValidEmail(email) {
      var at := IndexOf(email, '@');
      assert email[at] == '@';
    }
    if MatchesEmailPattern(email) {
      var at :| 1 <= at < |email| - 1 && email[at] == '@' &&
        (forall i :: 0 <= i < at ==> IsLocalChar(email[i])) &&
        (forall i :: at < i < |email| ==> !IsLineTerminator(email[i]));
      assert '@' !in email[..at] by {
        forall i | 0 <= i < at ensures email[..at][i] != '@' {
          assert IsLocalChar(email[i]);
        }
      }
      IndexOfFirst(email, '@', at);
    }
  }

  function CheckEmail(m: JsonObject): (r: Outcome<Failure>)
    ensures r.Pass? <==> "email" in m && m["email"].JString? && MatchesEmailPattern(m["email"].s)
    ensures r.Fail? && r.error.RuntimeError? <==> "email" in m && !m["email"].JString?
    ensures r.Fail? && r.error.ProtocolError? ==> r == FormatError("Valid email is required")
  {
    if !Has(m, "email") then FormatError("Valid email is required")
    else match GetString(m, "email")
      case Err(e) => Fail(e)
      case Ok(s) =>
        IsValidEmailIff(s);
        if !IsValidEmail(s) then FormatError("Valid email is required") else Pass
  }

  // ---------------------------------------------------------------- metadata

  /** Everything `validatePatientMetadata` demands, as one condition. */
  predicate IsValidMetadata(m: JsonObject)
  {
    && "fullName" in m && m["fullName"].JString? && Trim(m["fullName"].s) != []
    && "documentId" in m && m["documentId"].JString? && Trim(m["documentId"].s) != []
    && GetInt(m, "age").Ok? && 1 <= GetInt(m, "age").value <= 150
    && "sex" in m && m["sex"].JString? && IsSex(m["sex"].s)
    && "email" in m && m["email"].JString? && MatchesEmailPattern(m["email"].s)
  }

  function Then(first: Outcome<Failure>, next: Outcome<Failure>): (r: Outcome<Failure>)
    ensures r.Pass? <==> first.Pass? && next.Pass?
  {
    if first.Fail? then first else next
  }

  /** `validatePatientMetadata(metadata)` */
  function ValidatePatientMetadata(metadata: Option<JsonObject>): (r: Outcome<Failure>)
    ensures r.Pass? <==> metadata.Some? && IsValidMetadata(metadata.value)
    ensures metadata.None? ==> r == FormatError("Metadata cannot be null")
    ensures r.Fail? && r.error.ProtocolError? ==> r.error.code == InvalidFormat
  {
    if metadata.None? then FormatError("Metadata cannot be null")
    else
      var m := metadata.value;
      Then(CheckText(m, "fullName", "Full name is required"),
      Then(CheckText(m, "documentId", "Document ID is required"),
      Then(CheckAge(m),
      Then(CheckSex(m),
           CheckEmail(m)))))
  }

  /** The rules are applied in order: a missing name is reported whatever else is wrong. */
  lemma MissingNameReportedFirst(m: JsonObject)
    requires "fullName" !in m
    ensures ValidatePatientMetadata(Some(m)) == FormatError("Full name is required")
  {
  }

  /** The age bounds are inclusive at both ends. */
  lemma AgeBounds(m: JsonObject)
    ensures CheckAge(m["age" := JInt(1)]).Pass? && CheckAge(m["age" := JInt(150)]).Pass?
    ensures CheckAge(m["age" := JInt(0)]) == FormatError("Valid age is required (1-150)")
    ensures CheckAge(m["age" := JInt(151)]) == FormatError("Valid age is required (1-150)")
  {
  }

  // ---------------------------------------------------------------- file size

  const MaxFileSize: int := 10 * 1024 * 1024

  /** `validateFileSize(fileSizeBytes)`: at most 10 MiB, the limit included. */
  function ValidateFileSize(fileSizeBytes: int): (r: Outcome<Failure>)
    ensures r.Pass? <==> fileSizeBytes <= 10_485_760
    ensures r.Fail? ==> r == FormatError("File size exceeds maximum limit of 10MB")
  {
    if fileSizeBytes > MaxFileSize then FormatError("File size exceeds maximum limit of 10MB") else Pass
  }
}
