/** `FastaValidator`: the structural rules a FASTA upload must satisfy, the
    hexadecimal rendering of its digest, and the identifier on its header line. */
module FastaValidator {
  import opened Wrappers
  import opened Common
  import opened JavaText

  // ---------------------------------------------------------------- validation

  /** `content.split("\n")` */
  function Lines(content: string): seq<string>
  {
    JavaSplit(content, '\n')
  }

  /** `line.matches("^[ACGTN]+$")` */
  predicate IsSequenceLine(line: string)
  {
    line != [] && forall k :: 0 <= k < |line| ==> IsNucleotide(line[k])
  }

  /** A trimmed header line: `>` followed by at least one more character. */
  predicate IsHeader(header: string)
  {
    |header| >= 2 && header[0] == '>'
  }

  /** What `validateFasta` accepts, stated as one condition. */
  predicate IsValidFasta(content: Option<string>)
  {
    content.Some? && Trim(content.value) != [] &&
    var lines := Lines(content.value);
    |lines| >= 2 && IsHeader(Trim(lines[0])) &&
    forall i :: 1 <= i < |lines| ==> IsSequenceLine(Trim(lines[i]))
  }

  /** The first line at or after `from` whose trimmed text is not a sequence line. */
  function FirstBadLine(lines: seq<string>, from: nat): (r: Option<nat>)
    requires from <= |lines|
    ensures r.None? <==> forall i :: from <= i < |lines| ==> IsSequenceLine(Trim(lines[i]))
    ensures r.Some? ==> from <= r.value < |lines| && !IsSequenceLine(Trim(lines[r.value]))
    decreases |lines| - from
  {
    if from == |lines| then None
    else if !IsSequenceLine(Trim(lines[from])) then Some(from)
    else FirstBadLine(lines, from + 1)
  }

  function InvalidFastaError(message: string): Outcome<Failure>
  {
    Fail(ProtocolError(InvalidFasta, message))
  }

  /** `validateFasta(content)`: the checks in the order `validateFasta` makes them, with the
      message of the first one that fails. */
  function ValidateFasta(content: Option<string>): (r: Outcome<Failure>)
    ensures r.Pass? <==> IsValidFasta(content)
    ensures r.Fail? ==> r.error.ProtocolError? && r.error.code == InvalidFasta
    ensures content.None? ==> r == InvalidFastaError("FASTA content is empty")
  {
    if content.None? || Trim(content.value) == [] then InvalidFastaError("FASTA content is empty")
    else
      var lines := Lines(content.value);
      if |lines| < 2 then InvalidFastaError("FASTA must have at least 2 lines")
      else
        var header := Trim(lines[0]);
        if header == [] || header[0] != '>' then InvalidFastaError("FASTA header must start with '>'")
        else if |header| == 1 then InvalidFastaError("FASTA header must have an identifier after '>'")
        else match FirstBadLine(lines, 1)
          case Some(i) => InvalidFastaError("FASTA sequence contains invalid characters: " + Trim(lines[i]))
          case None => Pass
  }

  /** A header line with nothing after its newline is one line, not two. */
  lemma HeaderAloneRejected()
    ensures ValidateFasta(Some(">x\n")) == InvalidFastaError("FASTA must have at least 2 lines")
  {
    var s := ">x\n";
    SplitAllJoin([">x", ""], '\n');
    assert Join([">x", ""], '\n') == s;
    assert s[2] == '\n';
    assert Lines(s) == [">x"];
    TrimNonEmpty(s, 0);
  }

  /** Carriage returns ending the lines are trimmed away: a header and a
      sequence line each followed by `\r\n` form a valid file. */
  lemma CarriageReturnsAccepted(header: string, line: string)
    requires IsHeader(header) && !IsTrimmable(header[|header| - 1]) && '\n' !in header
    requires IsSequenceLine(line)
    ensures IsValidFasta(Some(header + "\r\n" + line + "\r\n"))
  {
    var s := header + "\r\n" + line + "\r\n";
    CarriageReturnLines(header, line);
    CarriageReturnTrimmed(header);
    CarriageReturnTrimmed(line);
    TrimNonEmpty(s, 0);
  }

  lemma CarriageReturnLines(header: string, line: string)
    requires IsHeader(header) && '\n' !in header
    requires IsSequenceLine(line)
    ensures Lines(header + "\r\n" + line + "\r\n") == [header + "\r", line + "\r"]
  {
    var s := header + "\r\n" + line + "\r\n";
    var p0 := header + "\r";
    var p1 := line + "\r";
    var parts := [p0, p1, ""];
    assert '\n' !in line by {
      assert !IsNucleotide('\n');
    }
    assert '\n' !in p0 && '\n' !in p1;
    assert Join(parts[2..], '\n') == "";
    assert Join(parts[1..], '\n') == p1 + "\n" + "";
    assert Join(parts, '\n') == p0 + "\n" + (p1 + "\n");
    assert s == p0 + "\n" + (p1 + "\n");
    SplitAllJoin(parts, '\n');
    assert s[|header| + 1] == '\n';
    assert DropTrailingEmpty(parts) == parts[..2];
  }

  lemma CarriageReturnTrimmed(text: string)
    requires text != [] && !IsTrimmable(text[0]) && !IsTrimmable(text[|text| - 1])
    ensures Trim(text + "\r") == text
  {
    TrimStartNoop(text + "\r");
    TrimEndAppend(text, "\r");
    assert TrimEnd("\r") == "";
  }

  /** An empty line between sequence lines is rejected. */
  lemma BlankInteriorLineRejected()
    ensures !IsValidFasta(Some(">id\n\nACGT"))
  {
    var s := ">id\n\nACGT";
    var parts := [">id", "", "ACGT"];
    SplitAllJoin(parts, '\n');
    assert Join(parts, '\n') == s;
    assert s[3] == '\n';
    assert Lines(s) == parts;
    assert !IsSequenceLine(Trim(parts[1]));
  }

  // ---------------------------------------------------------------- checksum

  newtype byte = x: int | 0 <= x < 256

  predicate IsLowerHex(c: char)
  {
    '0' <= c <= '9' || 'a' <= c <= 'f'
  }

  function HexDigit(v: int): (c: char)
    requires 0 <= v < 16
    ensures IsLowerHex(c)
  {
    if v < 10 then (('0' as int) + v) as char else (('a' as int) + v - 10) as char
  }

  function HexValue(c: char): (v: int)
    requires IsLowerHex(c)
    ensures 0 <= v < 16 && HexDigit(v) == c
  {
    if c <= '9' then (c as int) - ('0' as int) else (c as int) - ('a' as int) + 10
  }

  /** `Integer.toHexString(0xff & b)`: lower-case hexadecimal without leading zeros. */
  function ToHexString(b: byte): (s: string)
    ensures 1 <= |s| <= 2 && (|s| == 1 <==> b < 16)
  {
    if b < 16 then [HexDigit(b as int)] else [HexDigit((b / 16) as int), HexDigit((b % 16) as int)]
  }

  /** One loop iteration: a `0` first when the hex text is a single digit. */
  function HexPair(b: byte): (s: string)
  {
    var hex := ToHexString(b);
    (if |hex| == 1 then "0" else "") + hex
  }

  /** The whole string the loop of `calculateChecksum` builds. */
  function HexOf(digest: seq<byte>): (s: string)
  {
    if digest == [] then "" else HexOf(digest[..|digest| - 1]) + HexPair(digest[|digest| - 1])
  }

  /** The hex loop of `calculateChecksum`, over a digest supplied by the caller
      in place of `MessageDigest.getInstance("SHA-256")`. */
  method CalculateChecksum(content: string, sha256: string -> seq<byte>) returns (checksum: string)
    ensures checksum == HexOf(sha256(content))
    ensures |checksum| == 2 * |sha256(content)|
  {
    var hash := sha256(content);
    checksum := "";
    for k := 0 to |hash|
      invariant checksum == HexOf(hash[..k])
    {
      var hex := ToHexString(hash[k]);
      if |hex| == 1 {
        checksum := checksum + "0";
      }
      checksum := checksum + hex;
      assert hash[..k + 1][..k] == hash[..k];
    }
    assert hash[..|hash|] == hash;
    HexOfLength(hash);
  }

  /** Every byte takes exactly two lower-case hex digits, most significant first. */
  lemma HexPairDigits(b: byte)
    ensures |HexPair(b)| == 2
    ensures IsLowerHex(HexPair(b)[0]) && IsLowerHex(HexPair(b)[1])
    ensures HexValue(HexPair(b)[0]) * 16 + HexValue(HexPair(b)[1]) == b as int
  {
  }

  lemma {:induction false} HexOfLength(digest: seq<byte>)
    ensures |HexOf(digest)| == 2 * |digest|
  {
    if digest != [] {
      HexOfLength(digest[..|digest| - 1]);
      HexPairDigits(digest[|digest| - 1]);
    }
  }

  lemma {:induction false} HexOfAlphabet(digest: seq<byte>)
    ensures forall k :: 0 <= k < |HexOf(digest)| ==> IsLowerHex(HexOf(digest)[k])
  {
    if digest != [] {
      HexOfAlphabet(digest[..|digest| - 1]);
      HexPairDigits(digest[|digest| - 1]);
    }
  }

  /** Text made of pairs of lower-case hex digits. */
  predicate IsHexText(s: string)
  {
    |s| % 2 == 0 && forall k :: 0 <= k < |s| ==> IsLowerHex(s[k])
  }

  /** Reading a checksum back, two digits per byte. */
  function DecodeHex(s: string): seq<byte>
    requires IsHexText(s)
  {
    if s == [] then []
    else
      assert IsHexText(s[..|s| - 2]);
      DecodeHex(s[..|s| - 2]) + [(HexValue(s[|s| - 2]) * 16 + HexValue(s[|s| - 1])) as byte]
  }

  lemma HexOfIsHexText(digest: seq<byte>)
    ensures IsHexText(HexOf(digest))
  {
    HexOfLength(digest);
    HexOfAlphabet(digest);
  }

  /** Two more digits read back as one more byte. */
  lemma DecodeHexSnoc(t: string, pair: string)
    requires IsHexText(t) && |pair| == 2 && IsLowerHex(pair[0]) && IsLowerHex(pair[1])
    ensures IsHexText(t + pair)
    ensures DecodeHex(t + pair) == DecodeHex(t) + [(HexValue(pair[0]) * 16 + HexValue(pair[1])) as byte]
  {
    var s := t + pair;
    assert s[..|s| - 2] == t;
    assert s[|s| - 2] == pair[0] && s[|s| - 1] == pair[1];
  }

  /** One more byte of digest adds one more byte to what is read back. */
  lemma DecodeHexOfSnoc(init: seq<byte>, last: byte)
    ensures IsHexText(HexOf(init)) && IsHexText(HexOf(init + [last]))
    ensures DecodeHex(HexOf(init + [last])) == DecodeHex(HexOf(init)) + [last]
  {
    var digest := init + [last];
    assert digest[..|digest| - 1] == init;
    HexOfIsHexText(init);
    HexPairDigits(last);
    DecodeHexSnoc(HexOf(init), HexPair(last));
  }

  /** The rendering can be read back, so distinct digests never share a checksum. */
  lemma {:induction false} DecodeHexOf(digest: seq<byte>)
    ensures IsHexText(HexOf(digest)) && DecodeHex(HexOf(digest)) == digest
  {
    HexOfIsHexText(digest);
    if digest != [] {
      var init := digest[..|digest| - 1];
      var last := digest[|digest| - 1];
      assert digest == init + [last];
      DecodeHexOf(init);
      DecodeHexOfSnoc(init, last);
    }
  }

  lemma HexOfInjective(d1: seq<byte>, d2: seq<byte>)
    requires HexOf(d1) == HexOf(d2)
    ensures d1 == d2
  {
    DecodeHexOf(d1);
    DecodeHexOf(d2);
  }

  // ---------------------------------------------------------------- identifier

  /** `extractIdentifier(content)`: the first line, trimmed, without its first
      character, trimmed again; `"unknown"` when splitting leaves no lines, and
      the `StringIndexOutOfBoundsException` of `substring(1)` on a blank first line. */
  function ExtractIdentifier(content: string): (r: Result<string, Failure>)
    ensures Lines(content) == [] ==> r == Ok("unknown")
    ensures r.Err? <==> Lines(content) != [] && Trim(Lines(content)[0]) == []
  {
    var lines := Lines(content);
    if |lines| > 0 then
      var header := Trim(lines[0]);
      if header == [] then Err(RuntimeError("begin 1, end 0, length 0"))
      else Ok(Trim(header[1..]))
    else Ok("unknown")
  }

  /** On content the validator accepts, the identifier is the header's text after
      `>`, and it is never empty. */
  lemma IdentifierOfValidFasta(content: string)
    requires IsValidFasta(Some(content))
    ensures ExtractIdentifier(content).Ok?
    ensures ExtractIdentifier(content).value == Trim(Trim(Lines(content)[0])[1..])
    ensures ExtractIdentifier(content).value != []
  {
    var lines := Lines(content);
    var header := Trim(lines[0]);
    assert IsHeader(header);
    var rest := header[1..];
    assert rest[|rest| - 1] == header[|header| - 1];
    TrimNonEmpty(rest, |rest| - 1);
    assert ExtractIdentifier(content) == Ok(Trim(rest));
  }

  /** Content made only of newlines splits into no lines at all. */
  lemma NewlinesOnlyIsUnknown()
    ensures ExtractIdentifier("\n") == Ok("unknown")
  {
    var s := "\n";
    SplitAllJoin(["", ""], '\n');
    assert Join(["", ""], '\n') == s;
    assert s[0] == '\n';
    assert Lines(s) == [];
  }
}
