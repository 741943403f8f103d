/**
 * What IntelHexFile.parse builds from the lines its reader delivers, and
 * what toHexFileString writes: the records kept (the lines that parse, in
 * order), their links to the latest extension record before them, and the
 * variant of the file.  Parse gives its record objects the identities
 * 0, 1, 2, ... in the order it makes them.
 */
module FileParsing {
  import opened Wrappers
  import opened RecordTypes
  import opened HexFormats
  import opened HexFileLines
  import opened IndexLayout
  import opened Documents
  import opened LineReader

  /** The store of a freshly parsed file: record `j` has identity `j`. */
  function StoreOf(recs: seq<HexFileLine>): (store: Store)
    ensures forall id: Id :: id in store <==> id < |recs|
    ensures forall id :: id in store ==> store[id] == recs[id]
  {
    map id: Id | id < |recs| :: recs[id]
  }

  /** The identities 0 to `n - 1`, in order. */
  function Identities(n: nat): (ids: seq<Id>)
    ensures |ids| == n && forall j :: 0 <= j < n ==> ids[j] == j
  {
    seq(n, j requires 0 <= j < n => j)
  }

  /**
   * The position of the last extension record (linear or segment) among
   * `recs`, or None when there is none.
   */
  function LatestExtension(recs: seq<HexFileLine>): (latest: Option<Id>)
    ensures latest.Some? ==> latest.value < |recs| && recs[latest.value].kind.IsAddressExtension()
    ensures forall j :: 0 <= j < |recs| && recs[j].kind.IsAddressExtension() ==> latest.Some? && j <= latest.value
  {
    if |recs| == 0 then None
    else if recs[|recs| - 1].kind.IsAddressExtension() then Some(|recs| - 1)
    else LatestExtension(recs[..|recs| - 1])
  }

  /**
   * The variant a file of these records is taken for: that of the first
   * record whose type implies one other than I8HEX, or I8HEX when none
   * does.
   */
  function FileFormat(recs: seq<HexFileLine>): (f: HexFormat)
    ensures f == I8HEX <==> forall j :: 0 <= j < |recs| ==> DetermineFormat(recs[j].kind) == I8HEX
    ensures f != I8HEX ==> exists j :: 0 <= j < |recs| && DetermineFormat(recs[j].kind) == f
  {
    if |recs| == 0 then I8HEX
    else if DetermineFormat(recs[0].kind) != I8HEX then DetermineFormat(recs[0].kind)
    else
      var f := FileFormat(recs[1..]);
      assert forall j :: 1 <= j < |recs| ==> recs[j] == recs[1..][j - 1];
      f
  }

  /**
   * The parse loop's update of the format: it is set by the first record
   * implying a variant and kept from then on (a later, conflicting record
   * is only reported).
   */
  lemma {:induction false} FileFormatSnoc(recs: seq<HexFileLine>, r: HexFileLine)
    ensures FileFormat(recs + [r]) == if FileFormat(recs) == I8HEX then DetermineFormat(r.kind) else FileFormat(recs)
  {
    if |recs| > 0 {
      assert (recs + [r])[0] == recs[0];
      assert (recs + [r])[1..] == recs[1..] + [r];
      FileFormatSnoc(recs[1..], r);
    }
  }

  /**
   * The records parse keeps from the lines `lines` the reader delivers:
   * line `n` (counted from 1) is parsed linked to the latest extension
   * record kept before it, and kept when it parses.
   */
  function ParseRecords(lines: seq<string>): (recs: seq<HexFileLine>)
    ensures |recs| <= |lines|
  {
    if |lines| == 0 then []
    else
      var recs := ParseRecords(lines[..|lines| - 1]);
      match Parse(|lines|, lines[|lines| - 1], LatestExtension(recs))
      case Ok(l) => recs + [l]
      case Err(_) => recs
  }

  /**
   * A line that parses adds its record to those kept from the lines before
   * it; `number` is the line's number, counted from 1.
   */
  lemma ParseRecordsSnoc(lines: seq<string>, line: string, recs: seq<HexFileLine>, r: HexFileLine, number: int)
    requires ParseRecords(lines) == recs && number == |lines| + 1
    requires Parse(number, line, LatestExtension(recs)) == Ok(r)
    ensures ParseRecords(lines + [line]) == recs + [r]
  {
    assert (lines + [line])[..|lines|] == lines;
  }

  /**
   * What the parse loop has gathered from the lines `lines`: the record
   * objects kept, under identities 0, 1, 2, ...; their order; the next
   * identity; the latest extension record; and the variant.
   */
  predicate Gathered(lines: seq<string>, latest: Option<Id>, store: Store, records: seq<Id>, nextId: Id, format: HexFormat)
  {
    var recs := ParseRecords(lines);
    && store == StoreOf(recs) && records == Identities(|recs|) && nextId == |recs|
    && latest == LatestExtension(recs) && format == FileFormat(recs)
  }

  /** A line that does not parse adds nothing. */
  lemma ParseRecordsSkip(lines: seq<string>, line: string, recs: seq<HexFileLine>, number: int)
    requires ParseRecords(lines) == recs && number == |lines| + 1
    requires Parse(number, line, LatestExtension(recs)).Err?
    ensures ParseRecords(lines + [line]) == recs
  {
    assert (lines + [line])[..|lines|] == lines;
  }

  /** A record kept is stored under the next identity. */
  lemma StoreOfSnoc(recs: seq<HexFileLine>, r: HexFileLine)
    ensures StoreOf(recs + [r]) == StoreOf(recs)[|recs| := r]
  {
  }

  /** The next identity is appended to the document. */
  lemma IdentitiesSnoc(n: nat)
    ensures Identities(n + 1) == Identities(n) + [n]
  {
  }

  /** A kept extension record becomes the latest one; any other record leaves it. */
  lemma LatestExtensionSnoc(recs: seq<HexFileLine>, r: HexFileLine)
    ensures LatestExtension(recs + [r]) == if r.kind.IsAddressExtension() then Some(|recs|) else LatestExtension(recs)
  {
    assert (recs + [r])[..|recs|] == recs;
  }

  /** Every record is linked to the latest extension record before it. */
  predicate LinkedToLatest(recs: seq<HexFileLine>)
  {
    forall j :: 0 <= j < |recs| ==> recs[j].addressExtension == LatestExtension(recs[..j])
  }

  /**
   * What holds of the records parse keeps from `count` lines: each is
   * linked to the latest extension record before it, has a 16-bit
   * address, and carries the number of the line it was read from; the
   * line numbers ascend and lie within 1 to `count`.
   */
  predicate WellParsed(recs: seq<HexFileLine>, count: int)
  {
    && LinkedToLatest(recs)
    && (forall j :: 0 <= j < |recs| ==> 0 <= recs[j].address <= ADDRESS_MAX && 1 <= recs[j].lineNumber <= count)
    && (forall i, j :: 0 <= i < j < |recs| ==> recs[i].lineNumber < recs[j].lineNumber)
  }

  /** Parse keeps `WellParsed` from line to line. */
  lemma {:induction false} ParsedRecords(lines: seq<string>)
    ensures WellParsed(ParseRecords(lines), |lines|)
  {
    if |lines| > 0 {
      var prefix := lines[..|lines| - 1];
      ParsedRecords(prefix);
      var recs := ParseRecords(prefix);
      var r := Parse(|lines|, lines[|lines| - 1], LatestExtension(recs));
      if r.Ok? {
        assert ParseRecords(lines) == recs + [r.value];
        WellParsedSnoc(recs, r.value, |lines|);
      } else {
        assert ParseRecords(lines) == recs;
      }
    }
  }

  /** A record read from the next line, linked to the latest extension, keeps `WellParsed`. */
  lemma WellParsedSnoc(recs: seq<HexFileLine>, r: HexFileLine, count: int)
    requires WellParsed(recs, count - 1)
    requires 1 <= r.lineNumber == count && 0 <= r.address <= ADDRESS_MAX
    requires r.addressExtension == LatestExtension(recs)
    ensures WellParsed(recs + [r], count)
  {
    LinkedSnoc(recs, r);
    var t := recs + [r];
    forall j | 0 <= j < |t|
      ensures 0 <= t[j].address <= ADDRESS_MAX && 1 <= t[j].lineNumber <= count
    {
      if j < |recs| {
        assert t[j] == recs[j];
      }
    }
    forall i, j | 0 <= i < j < |t|
      ensures t[i].lineNumber < t[j].lineNumber
    {
      assert t[i] == recs[i];
      if j < |recs| {
        assert t[j] == recs[j];
      }
    }
  }

  /** A record linked to the latest extension so far keeps `LinkedToLatest`. */
  lemma LinkedSnoc(recs: seq<HexFileLine>, r: HexFileLine)
    requires LinkedToLatest(recs) && r.addressExtension == LatestExtension(recs)
    ensures LinkedToLatest(recs + [r])
  {
    var t := recs + [r];
    forall j | 0 <= j < |t|
      ensures t[j].addressExtension == LatestExtension(t[..j])
    {
      if j < |recs| {
        assert t[j] == recs[j] && t[..j] == recs[..j];
      } else {
        assert t[..j] == recs;
      }
    }
  }

  /**
   * The file parse builds is a valid document: identities 0 to n - 1 in
   * order, links to extension records of the file, 16-bit addresses.
   */
  lemma ParsedDocValid(lines: seq<string>)
    ensures var recs := ParseRecords(lines);
      DocValid(StoreOf(recs), Identities(|recs|), |recs|)
  {
    ParsedRecords(lines);
    WellParsedDocValid(ParseRecords(lines), |lines|);
  }

  /** Well-parsed records under identities 0 to n - 1 make a valid document. */
  lemma WellParsedDocValid(recs: seq<HexFileLine>, count: int)
    requires WellParsed(recs, count)
    ensures DocValid(StoreOf(recs), Identities(|recs|), |recs|)
  {
    var store, ids := StoreOf(recs), Identities(|recs|);
    forall i, j | 0 <= i < j < |ids|
      ensures Entry(ids, i) != Entry(ids, j)
    {
    }
    forall id | id in store
      ensures id in ids
    {
      assert ids[id] == id;
    }
    forall id | id in store && store[id].addressExtension.Some?
      ensures store[id].addressExtension.value in store
      ensures store[store[id].addressExtension.value].kind.IsAddressExtension()
    {
      var e := LatestExtension(recs[..id]);
      assert e == store[id].addressExtension;
      assert recs[..id][e.value] == recs[e.value];
    }
  }

  /** The records of a document, in order. */
  function RecordsIn(store: Store, ids: seq<Id>): (recs: seq<HexFileLine>)
    requires forall j :: 0 <= j < |ids| ==> ids[j] in store
    ensures |recs| == |ids| && forall j :: 0 <= j < |ids| ==> recs[j] == store[ids[j]]
  {
    seq(|ids|, j requires 0 <= j < |ids| => store[ids[j]])
  }

  /** The lines toHexFileString writes, one per record, in document order. */
  function Lines(recs: seq<HexFileLine>): (lines: seq<string>)
    ensures |lines| == |recs| && forall j :: 0 <= j < |recs| ==> lines[j] == ToString(recs[j])
  {
    seq(|recs|, j requires 0 <= j < |recs| => ToString(recs[j]))
  }

  /** Records as parse makes them from lines that all parse: numbered from 1 and linked to the latest extension. */
  predicate AsParsed(recs: seq<HexFileLine>)
  {
    && LinkedToLatest(recs)
    && (forall j :: 0 <= j < |recs| ==> recs[j].lineNumber == j + 1)
  }

  /**
   * Writing the records of a parsed file line by line and parsing those
   * lines again gives the same records, as long as every record can be
   * written faithfully (length below 256, 16-bit address, data bytes
   * below 0x80).
   */
  lemma ParseWritten(recs: seq<HexFileLine>)
    requires AsParsed(recs)
    requires forall j :: 0 <= j < |recs| ==> Printable(recs[j])
    ensures ParseRecords(Lines(recs)) == recs
  {
    var lines := Lines(recs);
    forall number | 1 <= number <= |recs|
      ensures ParsesAs(lines, recs, number)
    {
      WrittenLineParses(recs, number);
    }
    ParseEachLine(lines, recs, |recs|);
    assert lines[..|recs|] == lines && recs[..|recs|] == recs;
  }

  /** One written line of a parsed file parses back to its record. */
  lemma WrittenLineParses(recs: seq<HexFileLine>, number: int)
    requires 1 <= number <= |recs| && Printable(recs[number - 1])
    requires AsParsed(recs)
    ensures ParsesAs(Lines(recs), recs, number)
  {
    ParseToString(recs[number - 1], number, LatestExtension(recs[..number - 1]));
  }

  /**
   * Line `number` (counted from 1) of `lines` parses, linked to the latest
   * extension record among those before it, to record `number` of `recs`.
   */
  predicate ParsesAs(lines: seq<string>, recs: seq<HexFileLine>, number: int)
  {
    && 1 <= number <= |lines| && number <= |recs|
    && Parse(number, lines[number - 1], LatestExtension(recs[..number - 1])) == Ok(recs[number - 1])
  }

  /** When the first `k` lines each parse to the next record, those records are kept. */
  lemma {:induction false} ParseEachLine(lines: seq<string>, recs: seq<HexFileLine>, k: int)
    requires 0 <= k <= |lines| && k <= |recs|
    requires forall number :: 1 <= number <= k ==> ParsesAs(lines, recs, number)
    ensures ParseRecords(lines[..k]) == recs[..k]
  {
    if k > 0 {
      ParseEachLine(lines, recs, k - 1);
      assert ParsesAs(lines, recs, k);
      ParseRecordsSnoc(lines[..k - 1], lines[k - 1], recs[..k - 1], recs[k - 1], k);
      PrefixSnoc(lines, k);
      PrefixSnoc(recs, k);
    }
  }

  /** A prefix is the prefix one shorter followed by its last element. */
  lemma PrefixSnoc<T>(s: seq<T>, k: int)
    requires 0 < k <= |s|
    ensures s[..k] == s[..k - 1] + [s[k - 1]]
  {
  }

  /** The reader hands out the written lines of records one by one, as they are. */
  lemma ReadWritten(recs: seq<HexFileLine>)
    ensures Output([], Lines(recs)) == Ok(Lines(recs))
  {
    var lines := Lines(recs);
    forall j | 0 <= j < |lines|
      ensures OneRecord(lines[j])
    {
      ToStringOneColon(recs[j]);
    }
    ReadOneRecordLines(lines);
  }

  /** A line holding one record: a ':' and then a text without colons. */
  predicate OneRecord(line: string)
  {
    |line| > 1 && line[0] == ':' && ':' !in line[1..]
  }

  /** Lines holding one record each are handed out as they are. */
  lemma {:induction false} ReadOneRecordLines(lines: seq<string>)
    requires forall j :: 0 <= j < |lines| ==> OneRecord(lines[j])
    ensures Output([], lines) == Ok(lines)
  {
    if |lines| > 0 {
      var line, rest := lines[0], lines[1..];
      ReadOneRecordLines(rest);
      assert OneRecord(line);
      assert line == ":" + line[1..];
      assert lines == [":" + line[1..]] + rest;
      OneRecordLine(line[1..], rest);
    }
  }

  /**
   * The lines written for the records of a parsed file, read by the line
   * reader and parsed, give the same records, as long as every record can
   * be written faithfully.
   */
  lemma WrittenFileReadsBack(recs: seq<HexFileLine>)
    requires AsParsed(recs)
    requires forall j :: 0 <= j < |recs| ==> Printable(recs[j])
    ensures Output([], Lines(recs)).Ok?
    ensures ParseRecords(Output([], Lines(recs)).value) == recs
  {
    ReadWritten(recs);
    ParseWritten(recs);
  }

  /** Records as parse makes them stay so when the last ones are cut off. */
  lemma AsParsedPrefix(recs: seq<HexFileLine>, k: int)
    requires AsParsed(recs) && 0 <= k <= |recs|
    ensures AsParsed(recs[..k])
  {
    var prefix := recs[..k];
    forall j | 0 <= j < |prefix|
      ensures prefix[j].addressExtension == LatestExtension(prefix[..j])
    {
      assert prefix[..j] == recs[..j];
    }
  }

  /**
   * toHexFileString: the records' texts joined by the line separator,
   * followed by one more separator.
   */
  function JoinLines(lines: seq<string>, separator: string): string
  {
    if |lines| == 0 then ""
    else if |lines| == 1 then lines[0]
    else lines[0] + separator + JoinLines(lines[1..], separator)
  }

  /** Each line followed by the separator. */
  function Terminated(lines: seq<string>, separator: string): string
  {
    if |lines| == 0 then "" else lines[0] + separator + Terminated(lines[1..], separator)
  }

  /**
   * Joining the lines and adding one separator at the end is ending every
   * line with the separator: the text holds each record's line, in order,
   * each closed by the separator.
   */
  lemma {:induction false} JoinedIsTerminated(lines: seq<string>, separator: string)
    requires |lines| > 0
    ensures JoinLines(lines, separator) + separator == Terminated(lines, separator)
  {
    if |lines| > 1 {
      JoinedIsTerminated(lines[1..], separator);
      assert lines[0] + separator + JoinLines(lines[1..], separator) + separator
          == lines[0] + separator + (JoinLines(lines[1..], separator) + separator);
    }
  }
}
