/** The one-off data script that removes repeated postal codes from the
    comma-separated city/postal-code file and writes the rest out in a
    `|`-delimited layout. A file is read as the sequence of the lines
    Python iterates over (each with its line ending) and written as the
    text it ends up holding. */
module GetRidOfDuplicates {
  import opened Results
  import opened PyText

  /** The value stored per postal code: the latitude and longitude fields,
      as text. */
  datatype Coordinates = Coordinates(lat: string, lon: string)

  /** What one row contributes: its postal code and its coordinates. */
  datatype Entry = Entry(zipcode: int, coords: Coordinates)

  // ---------------------------------------------------------------------
  // get_rid_of_duplicates

  /** One row of the loop body. `row.strip()` has no effect (its result is
      dropped), the row is split on commas, field 2 goes through `int`,
      fields 3 and 4 are taken as they are. The exceptions come in the
      order the body raises them. */
  function ParseRow(row: string): (entry: Result<Entry>) {
    var temp := SplitOn(row, ',');
    if |temp| < 3 then Err(IndexError)
    else match ParseInt(temp[2])
      case None => Err(ValueError)
      case Some(zipcode) =>
        if |temp| < 5 then Err(IndexError)
        else Ok(Entry(zipcode, Coordinates(temp[3], temp[4])))
  }

  /** Each row parsed on its own. */
  function ParsedRows(rows: seq<string>): (parsed: seq<Result<Entry>>)
    ensures |parsed| == |rows|
    ensures forall i :: 0 <= i < |rows| ==> parsed[i] == ParseRow(rows[i])
  {
    seq(|rows|, i requires 0 <= i < |rows| => ParseRow(rows[i]))
  }

  /** The dictionary built from parsed rows, each overwriting the entry of
      its postal code; the first row that raises ends the script. */
  function Collect(parsed: seq<Result<Entry>>): (zips: Result<map<int, Coordinates>>) {
    if parsed == [] then Ok(map[])
    else match Collect(parsed[..|parsed| - 1])
      case Err(e) => Err(e)
      case Ok(zips) =>
        match parsed[|parsed| - 1]
          case Err(e) => Err(e)
          case Ok(entry) => Ok(zips[entry.zipcode := entry.coords])
  }

  /** What `get_rid_of_duplicates` returns for the rows of a file. */
  function DedupedZips(rows: seq<string>): (zips: Result<map<int, Coordinates>>) {
    Collect(ParsedRows(rows))
  }

  /** `get_rid_of_duplicates`: the loop over the rows of the file. */
  method GetRidOfDuplicates(rows: seq<string>) returns (r: Result<map<int, Coordinates>>)
    ensures r == DedupedZips(rows)
  {
    ghost var parsed := ParsedRows(rows);
    var dictOfZips: map<int, Coordinates> := map[];
    for i := 0 to |rows|
      invariant Collect(parsed[..i]) == Ok(dictOfZips)
    {
      assert parsed[..i + 1][..i] == parsed[..i];
      match ParseRow(rows[i]) {
        case Err(e) =>
          CollectFailsAfter(parsed, i + 1);
          return Err(e);
        case Ok(entry) =>
          dictOfZips := dictOfZips[entry.zipcode := entry.coords];
      }
    }
    assert parsed[..|rows|] == parsed;
    return Ok(dictOfZips);
  }

  /** Once a prefix of the rows raises, the whole file raises the same. */
  lemma {:induction false} CollectFailsAfter(parsed: seq<Result<Entry>>, k: nat)
    requires k <= |parsed| && Collect(parsed[..k]).Err?
    ensures Collect(parsed) == Collect(parsed[..k])
    decreases |parsed| - k
  {
    if k < |parsed| {
      assert parsed[..k + 1][..k] == parsed[..k];
      CollectFailsAfter(parsed, k + 1);
    } else {
      assert parsed[..k] == parsed;
    }
  }

  /** The script gets through the file exactly when every row parses. */
  lemma {:induction false} CollectOk(parsed: seq<Result<Entry>>)
    ensures Collect(parsed).Ok? <==> forall i :: 0 <= i < |parsed| ==> parsed[i].Ok?
  {
    if parsed != [] {
      var prefix := parsed[..|parsed| - 1];
      CollectOk(prefix);
      assert forall i :: 0 <= i < |prefix| ==> prefix[i] == parsed[i];
    }
  }

  /** The keys are exactly the postal codes of the rows. */
  lemma {:induction false} CollectKeys(parsed: seq<Result<Entry>>, zipcode: int)
    requires forall i :: 0 <= i < |parsed| ==> parsed[i].Ok?
    ensures Collect(parsed).Ok?
    ensures zipcode in Collect(parsed).value <==>
              exists i :: 0 <= i < |parsed| && parsed[i].value.zipcode == zipcode
  {
    CollectOk(parsed);
    if parsed != [] {
      var prefix := parsed[..|parsed| - 1];
      assert forall i :: 0 <= i < |prefix| ==> prefix[i] == parsed[i];
      CollectKeys(prefix, zipcode);
      if exists i :: 0 <= i < |parsed| && parsed[i].value.zipcode == zipcode {
        var i :| 0 <= i < |parsed| && parsed[i].value.zipcode == zipcode;
        if i < |prefix| {
          assert prefix[i].value.zipcode == zipcode;
        }
      }
      if zipcode in Collect(prefix).value {
        var i :| 0 <= i < |prefix| && prefix[i].value.zipcode == zipcode;
        assert parsed[i].value.zipcode == zipcode;
      }
    }
  }

  /** When rows share a postal code the last of them wins: the entry is
      the coordinates of the last row with that code. */
  lemma {:induction false} LastRowWins(parsed: seq<Result<Entry>>, i: nat)
    requires forall j :: 0 <= j < |parsed| ==> parsed[j].Ok?
    requires i < |parsed|
    requires forall j :: i < j < |parsed| ==> parsed[j].value.zipcode != parsed[i].value.zipcode
    ensures Collect(parsed).Ok? && parsed[i].value.zipcode in Collect(parsed).value
    ensures Collect(parsed).value[parsed[i].value.zipcode] == parsed[i].value.coords
  {
    CollectOk(parsed);
    var prefix := parsed[..|parsed| - 1];
    assert forall j :: 0 <= j < |prefix| ==> prefix[j] == parsed[j];
    CollectOk(prefix);
    if i < |prefix| {
      LastRowWins(prefix, i);
    }
  }

  /** The first row that raises decides the exception. */
  lemma {:induction false} FirstBadRowRaises(parsed: seq<Result<Entry>>, i: nat)
    requires i < |parsed|
    requires forall j :: 0 <= j < i ==> parsed[j].Ok?
    requires parsed[i].Err?
    ensures Collect(parsed) == Err(parsed[i].error)
  {
    var prefix := parsed[..i];
    assert forall j :: 0 <= j < |prefix| ==> prefix[j] == parsed[j];
    CollectOk(prefix);
    assert parsed[..i + 1][..i] == prefix;
    CollectFailsAfter(parsed, i + 1);
  }

  /** How a row fares, by its number of commas. With fewer than two there
      is no field 2 (IndexError). Otherwise `int` of field 2 decides: text
      it rejects raises ValueError. A valid key still needs fields 3 and 4,
      that is at least four commas, or the row raises IndexError. A row
      that parses is keyed on field 2 and keeps fields 3 and 4. */
  lemma ParseRowOutcomes(row: string)
    ensures multiset(row)[','] < 2 ==> ParseRow(row) == Err(IndexError)
    ensures multiset(row)[','] >= 2 ==>
              |SplitOn(row, ',')| >= 3
              && (ParseRow(row) == Err(ValueError) <==> ParseInt(SplitOn(row, ',')[2]).None?)
    ensures multiset(row)[','] >= 2 && ParseInt(SplitOn(row, ',')[2]).Some? && multiset(row)[','] < 4 ==>
              ParseRow(row) == Err(IndexError)
    ensures ParseRow(row).Ok? <==>
              multiset(row)[','] >= 4 && ParseInt(SplitOn(row, ',')[2]).Some?
    ensures ParseRow(row).Ok? ==>
              ParseRow(row).value == Entry(ParseInt(SplitOn(row, ',')[2]).value,
                                           Coordinates(SplitOn(row, ',')[3], SplitOn(row, ',')[4]))
  {
    SplitOnCount(row, ',');
  }

  /** A row of five comma-free fields is keyed on the value of its third
      field and keeps the last two unchanged. In particular a row read
      with its line ending keeps that ending on the longitude, because the
      stripped copy of the row is thrown away. */
  lemma ParseRowOfFields(city: string, state: string, zip: string, lat: string, lon: string)
    requires ',' !in city && ',' !in state && ',' !in zip && ',' !in lat && ',' !in lon
    requires ParseInt(zip).Some?
    ensures ParseRow(JoinOn([city, state, zip, lat, lon], ',')) == Ok(Entry(ParseInt(zip).value, Coordinates(lat, lon)))
  {
    var fields := [city, state, zip, lat, lon];
    assert forall f :: f in fields ==> ',' !in f;
    SplitOnJoin(fields, ',');
  }

  /** Leading zeros are lost: a row whose zip field is "0" + str(n) is
      keyed n, and the record written for that key starts with str(n),
      which for a positive n has no leading zero at all. */
  lemma LeadingZeroLost(city: string, state: string, n: nat, coords: Coordinates)
    requires ',' !in city && ',' !in state && ',' !in coords.lat && ',' !in coords.lon
    requires '|' !in coords.lat && '|' !in coords.lon
    ensures ParseRow(JoinOn([city, state, "0" + NatToString(n), coords.lat, coords.lon], ','))
         == Ok(Entry(n, coords))
    ensures SplitOn(Record(n, coords), '|')[0] == NatToString(n)
    ensures n > 0 ==> SplitOn(Record(n, coords), '|')[0][0] != '0'
  {
    var zip := "0" + NatToString(n);
    ParseIntLeadingZero(n);
    assert AllDigits(zip);
    assert forall i :: 0 <= i < |zip| ==> zip[i] != ',';
    ParseRowOfFields(city, state, zip, coords.lat, coords.lon);
    RecordFields(n, coords);
  }

  // ---------------------------------------------------------------------
  // write_to_new_file

  /** An open text file: what it holds so far. */
  class TextFile {
    var contents: string

    constructor (contents: string)
      ensures this.contents == contents
    {
      this.contents := contents;
    }

    /** `truncate()`. */
    method Truncate()
      modifies this
      ensures contents == []
    {
      contents := [];
    }

    /** `write(text)`. */
    method Write(text: string)
      modifies this
      ensures contents == old(contents) + text
    {
      contents := contents + text;
    }
  }

  /** The line written for one postal code, without its newline. */
  function Record(zipcode: int, coords: Coordinates): (line: string) {
    IntToString(zipcode) + "|" + coords.lat + "|" + coords.lon
  }

  /** The text written for the keys in the order given, each record
      followed by a newline. */
  function Serialized(order: seq<int>, zips: map<int, Coordinates>): (text: string)
    requires forall k :: k in order ==> k in zips
  {
    if order == [] then ""
    else
      var zipcode := order[|order| - 1];
      Serialized(order[..|order| - 1], zips) + Record(zipcode, zips[zipcode]) + "\n"
  }

  /** The records for the keys in the order given. */
  function Records(order: seq<int>, zips: map<int, Coordinates>): (records: seq<string>)
    requires forall k :: k in order ==> k in zips
    ensures |records| == |order|
  {
    if order == [] then []
    else
      var zipcode := order[|order| - 1];
      Records(order[..|order| - 1], zips) + [Record(zipcode, zips[zipcode])]
  }

  predicate Distinct(order: seq<int>) {
    forall i, j :: 0 <= i < j < |order| ==> order[i] != order[j]
  }

  /** An iteration order of a dictionary: each key once. */
  predicate EnumeratesKeys(order: seq<int>, zips: map<int, Coordinates>) {
    (forall k :: k in zips ==> k in order) && (forall k :: k in order ==> k in zips) && Distinct(order)
  }

  /** `write_to_new_file`. Python 2 iterates over a dictionary in an order
      it does not specify, so each step takes any key not yet written; the
      order taken is returned. Opening with 'w' and `truncate()` leave the
      file empty, so it ends up holding only what the loop writes. */
  method WriteToNewFile(target: TextFile, zipsToAdd: map<int, Coordinates>) returns (order: seq<int>)
    modifies target
    ensures EnumeratesKeys(order, zipsToAdd)
    ensures target.contents == Serialized(order, zipsToAdd)
  {
    target.Truncate();
    var remaining := zipsToAdd.Keys;
    order := [];
    while remaining != {}
      invariant remaining <= zipsToAdd.Keys
      invariant forall k :: k in zipsToAdd <==> k in order || k in remaining
      invariant forall k :: k in order ==> k !in remaining
      invariant Distinct(order)
      invariant target.contents == Serialized(order, zipsToAdd)
      decreases |remaining|
    {
      SomeKey(remaining);
      var zipcode :| zipcode in remaining;
      var line := IntToString(zipcode) + "|" + zipsToAdd[zipcode].lat + "|" + zipsToAdd[zipcode].lon;
      target.Write(line);
      target.Write("\n");
      assert (order + [zipcode])[..|order|] == order;
      order := order + [zipcode];
      remaining := remaining - {zipcode};
    }
  }

  /** A non-empty set of keys has an element. */
  lemma SomeKey(keys: set<int>)
    requires keys != {}
    ensures exists k :: k in keys
  {
    if forall k :: k !in keys {
      assert false;
    }
  }

  /** A key order that enumerates a dictionary is as long as the
      dictionary has keys. */
  lemma EnumerationLength(order: seq<int>, zips: map<int, Coordinates>)
    requires EnumeratesKeys(order, zips)
    ensures |order| == |zips|
  {
    DistinctElements(order);
    assert forall k :: k in zips.Keys <==> k in order;
    assert zips.Keys == set k | k in order;
  }

  lemma {:induction false} DistinctElements(order: seq<int>)
    requires Distinct(order)
    ensures |set k | k in order| == |order|
  {
    if order != [] {
      var prefix := order[..|order| - 1];
      var last := order[|order| - 1];
      DistinctElements(prefix);
      assert last !in prefix;
      assert order == prefix + [last];
      assert (set k | k in order) == (set k | k in prefix) + {last};
    }
  }

  /** `str` of an integer holds neither a newline nor a `|`. */
  lemma IntToStringPlain(n: int)
    ensures '\n' !in IntToString(n) && '|' !in IntToString(n)
  {
    var s := NatToString(if n < 0 then -n else n);
    assert AllDigits(s);
  }

  /** Each record reads back, split on `|`, as the postal code and the two
      coordinates, and the postal code field converts back to the key. */
  lemma RecordFields(zipcode: int, coords: Coordinates)
    requires '|' !in coords.lat && '|' !in coords.lon
    ensures SplitOn(Record(zipcode, coords), '|') == [IntToString(zipcode), coords.lat, coords.lon]
    ensures ParseInt(SplitOn(Record(zipcode, coords), '|')[0]) == Some(zipcode)
  {
    IntToStringPlain(zipcode);
    var fields := [IntToString(zipcode), coords.lat, coords.lon];
    assert forall f :: f in fields ==> '|' !in f;
    assert fields[1..] == [coords.lat, coords.lon] && fields[1..][1..] == [coords.lon];
    assert JoinOn(fields[1..], '|') == coords.lat + "|" + coords.lon;
    assert JoinOn(fields, '|') == Record(zipcode, coords);
    SplitOnJoin(fields, '|');
    ParseIntOfIntToString(zipcode);
  }

  lemma {:induction false} JoinOnSnoc(fields: seq<string>, last: string, sep: char)
    requires |fields| >= 1
    ensures JoinOn(fields + [last], sep) == JoinOn(fields, sep) + [sep] + last
    decreases |fields|
  {
    if |fields| > 1 {
      assert (fields + [last])[1..] == fields[1..] + [last];
      JoinOnSnoc(fields[1..], last, sep);
    }
  }

  /** Joining one more field before a final empty one. */
  lemma JoinOnBeforeEmpty(fields: seq<string>, last: string, sep: char)
    ensures JoinOn(fields + [last] + [""], sep) == JoinOn(fields + [""], sep) + last + [sep]
  {
    JoinOnSnoc(fields + [last], "", sep);
    if fields == [] {
      assert fields + [last] == [last] && fields + [""] == [""];
    } else {
      JoinOnSnoc(fields, last, sep);
      JoinOnSnoc(fields, "", sep);
    }
  }

  /** The written text is the records joined by newlines, with a newline
      after the last one. */
  lemma {:induction false} SerializedIsJoined(order: seq<int>, zips: map<int, Coordinates>)
    requires forall k :: k in order ==> k in zips
    ensures JoinOn(Records(order, zips) + [""], '\n') == Serialized(order, zips)
  {
    if order != [] {
      var prefix := order[..|order| - 1];
      var zipcode := order[|order| - 1];
      var record := Record(zipcode, zips[zipcode]);
      var before := Records(prefix, zips);
      assert Records(order, zips) == before + [record];
      assert Serialized(order, zips) == Serialized(prefix, zips) + record + "\n";
      SerializedIsJoined(prefix, zips);
      JoinOnBeforeEmpty(before, record, '\n');
    }
  }

  /** When no coordinate holds a newline, the written file has one line
      per key: split on newlines it gives the records, then the empty text
      after the final newline. With an enumeration of the dictionary, the
      number of records is the number of distinct postal codes. */
  lemma SerializedLines(order: seq<int>, zips: map<int, Coordinates>)
    requires EnumeratesKeys(order, zips)
    requires forall k :: k in zips ==> '\n' !in zips[k].lat && '\n' !in zips[k].lon
    ensures SplitOn(Serialized(order, zips), '\n') == Records(order, zips) + [""]
    ensures |Records(order, zips)| == |zips|
  {
    SerializedIsJoined(order, zips);
    RecordsPlain(order, zips);
    SplitOnJoin(Records(order, zips) + [""], '\n');
    EnumerationLength(order, zips);
  }

  lemma {:induction false} RecordsPlain(order: seq<int>, zips: map<int, Coordinates>)
    requires forall k :: k in order ==> k in zips
    requires forall k :: k in zips ==> '\n' !in zips[k].lat && '\n' !in zips[k].lon
    ensures forall f :: f in Records(order, zips) + [""] ==> '\n' !in f
  {
    if order != [] {
      var zipcode := order[|order| - 1];
      RecordsPlain(order[..|order| - 1], zips);
      IntToStringPlain(zipcode);
    }
  }

  /** The newlines in the coordinates of the keys in the order given. */
  function CoordinateNewlines(order: seq<int>, zips: map<int, Coordinates>): (count: nat)
    requires forall k :: k in order ==> k in zips
  {
    if order == [] then 0
    else
      var zipcode := order[|order| - 1];
      var coords := zips[zipcode];
      CoordinateNewlines(order[..|order| - 1], zips) + multiset(coords.lat)['\n'] + multiset(coords.lon)['\n']
  }

  /** The text holds one newline per key on top of those inside the
      coordinates. */
  lemma {:induction false} SerializedNewlines(order: seq<int>, zips: map<int, Coordinates>)
    requires forall k :: k in order ==> k in zips
    ensures multiset(Serialized(order, zips))['\n'] == |order| + CoordinateNewlines(order, zips)
  {
    if order != [] {
      var prefix := order[..|order| - 1];
      var zipcode := order[|order| - 1];
      var record := Record(zipcode, zips[zipcode]);
      assert Serialized(order, zips) == Serialized(prefix, zips) + record + "\n";
      SerializedNewlines(prefix, zips);
      RecordNewlines(zipcode, zips[zipcode]);
    }
  }

  /** A record's newlines are those of its coordinates. */
  lemma RecordNewlines(zipcode: int, coords: Coordinates)
    ensures multiset(Record(zipcode, coords))['\n'] == multiset(coords.lat)['\n'] + multiset(coords.lon)['\n']
  {
    IntToStringPlain(zipcode);
    assert multiset(IntToString(zipcode))['\n'] == 0;
  }

  /** Rows read with their line endings keep them on the longitude, so the
      output holds two newlines per key. */
  lemma {:induction false} TwoNewlinesPerRecord(order: seq<int>, zips: map<int, Coordinates>)
    requires forall k :: k in order ==> k in zips
    requires forall k :: k in zips ==> multiset(zips[k].lat)['\n'] == 0 && multiset(zips[k].lon)['\n'] == 1
    ensures multiset(Serialized(order, zips))['\n'] == 2 * |order|
  {
    SerializedNewlines(order, zips);
    CoordinateNewlinesCount(order, zips);
  }

  lemma {:induction false} CoordinateNewlinesCount(order: seq<int>, zips: map<int, Coordinates>)
    requires forall k :: k in order ==> k in zips
    requires forall k :: k in zips ==> multiset(zips[k].lat)['\n'] == 0 && multiset(zips[k].lon)['\n'] == 1
    ensures CoordinateNewlines(order, zips) == |order|
  {
    if order != [] {
      var zipcode := order[|order| - 1];
      assert zipcode in zips;
      CoordinateNewlinesCount(order[..|order| - 1], zips);
    }
  }

  /** The coordinates of a row read with its line ending: the latitude has
      no newline and the longitude ends in the row's only newline. */
  predicate KeptLineEnd(coords: Coordinates) {
    '\n' !in coords.lat && coords.lon != [] && coords.lon[|coords.lon| - 1] == '\n'
    && '\n' !in coords.lon[..|coords.lon| - 1]
  }

  /** The record without its last character: for coordinates read with
      their line ending, the newline the longitude carries. */
  function RecordLine(zipcode: int, coords: Coordinates): (line: string)
    ensures KeptLineEnd(coords) ==> line + "\n" == Record(zipcode, coords) && '\n' !in line
  {
    var record := Record(zipcode, coords);
    assert KeptLineEnd(coords) ==>
      record[..|record| - 1] == IntToString(zipcode) + "|" + coords.lat + "|" + coords.lon[..|coords.lon| - 1];
    IntToStringPlain(zipcode);
    record[..|record| - 1]
  }

  /** The lines of the written file for keys whose rows kept their line
      endings: each record's line, then an empty line. */
  function LinesWithBlanks(order: seq<int>, zips: map<int, Coordinates>): (lines: seq<string>)
    requires forall k :: k in order ==> k in zips
    ensures |lines| == 2 * |order|
  {
    if order == [] then []
    else
      var zipcode := order[|order| - 1];
      LinesWithBlanks(order[..|order| - 1], zips) + [RecordLine(zipcode, zips[zipcode]), ""]
  }

  lemma {:induction false} LinesWithBlanksAt(order: seq<int>, zips: map<int, Coordinates>, i: nat)
    requires forall k :: k in order ==> k in zips
    requires i < |order|
    ensures LinesWithBlanks(order, zips)[2 * i] == RecordLine(order[i], zips[order[i]])
    ensures LinesWithBlanks(order, zips)[2 * i + 1] == ""
  {
    var prefix, zipcode := order[..|order| - 1], order[|order| - 1];
    var before := LinesWithBlanks(prefix, zips);
    var lines := LinesWithBlanks(order, zips);
    assert lines == before + [RecordLine(zipcode, zips[zipcode]), ""];
    if i < |prefix| {
      LinesWithBlanksAt(prefix, zips, i);
      assert prefix[i] == order[i];
      assert lines[2 * i] == before[2 * i] && lines[2 * i + 1] == before[2 * i + 1];
    } else {
      assert 2 * i == |before| && order[i] == zipcode;
    }
  }

  /** None of those lines holds a newline. */
  lemma {:induction false} LinesWithBlanksPlain(order: seq<int>, zips: map<int, Coordinates>)
    requires forall k :: k in order ==> k in zips && KeptLineEnd(zips[k])
    ensures forall f :: f in LinesWithBlanks(order, zips) + [""] ==> '\n' !in f
  {
    if order != [] {
      var prefix, zipcode := order[..|order| - 1], order[|order| - 1];
      var before, line := LinesWithBlanks(prefix, zips), RecordLine(zipcode, zips[zipcode]);
      assert forall k :: k in prefix ==> k in order;
      LinesWithBlanksPlain(prefix, zips);
      assert zipcode in order && '\n' !in line;
      assert LinesWithBlanks(order, zips) + [""] == before + [line, "", ""];
      forall f | f in before + [line, "", ""] ensures '\n' !in f {
        if f in before {
          assert f in before + [""];
        }
      }
    }
  }

  /** The written text is those lines joined by newlines, with a newline
      after the last one. */
  lemma {:induction false} SerializedIsJoinedWithBlanks(order: seq<int>, zips: map<int, Coordinates>)
    requires forall k :: k in order ==> k in zips && KeptLineEnd(zips[k])
    ensures JoinOn(LinesWithBlanks(order, zips) + [""], '\n') == Serialized(order, zips)
  {
    if order != [] {
      var prefix := order[..|order| - 1];
      var zipcode := order[|order| - 1];
      var line := RecordLine(zipcode, zips[zipcode]);
      var before := LinesWithBlanks(prefix, zips);
      assert LinesWithBlanks(order, zips) == before + [line, ""];
      assert Serialized(order, zips) == Serialized(prefix, zips) + (line + "\n") + "\n";
      SerializedIsJoinedWithBlanks(prefix, zips);
      JoinBlankStep(before, line, Serialized(prefix, zips));
    }
  }

  /** One record's line and an empty line, joined in before the final
      empty piece. */
  lemma JoinBlankStep(before: seq<string>, line: string, text: string)
    requires JoinOn(before + [""], '\n') == text
    ensures JoinOn(before + [line, ""] + [""], '\n') == text + (line + "\n") + "\n"
  {
    assert before + [line, ""] + [""] == before + [line] + [""] + [""];
    JoinOnBeforeEmpty(before + [line], "", '\n');
    JoinOnBeforeEmpty(before, line, '\n');
  }

  /** A five-field line of the input file, ending in its newline, parses
      to coordinates that keep that line ending on the longitude. */
  lemma LineEndKept(city: string, state: string, zip: string, lat: string, lonBody: string)
    requires ',' !in city && ',' !in state && ',' !in zip && ',' !in lat && ',' !in lonBody
    requires '\n' !in lat && '\n' !in lonBody
    requires ParseInt(zip).Some?
    ensures ParseRow(JoinOn([city, state, zip, lat, lonBody + "\n"], ',')).Ok?
    ensures KeptLineEnd(ParseRow(JoinOn([city, state, zip, lat, lonBody + "\n"], ',')).value.coords)
  {
    var lon := lonBody + "\n";
    assert lon[..|lon| - 1] == lonBody;
    assert forall i :: 0 <= i < |lon| ==> lon[i] != ',';
    ParseRowOfFields(city, state, zip, lat, lon);
  }

  /** Rows read with their line endings keep them on the longitude, so in
      the written file every record is followed by an empty line: split on
      newlines, the text alternates each record (without the newline its
      longitude carried) with an empty line, and ends in the empty text
      after the final newline. */
  lemma BlankLineAfterEachRecord(order: seq<int>, zips: map<int, Coordinates>)
    requires forall k :: k in order ==> k in zips && KeptLineEnd(zips[k])
    ensures |SplitOn(Serialized(order, zips), '\n')| == 2 * |order| + 1
    ensures forall i :: 0 <= i < |order| ==>
              SplitOn(Serialized(order, zips), '\n')[2 * i] + "\n" == Record(order[i], zips[order[i]])
              && SplitOn(Serialized(order, zips), '\n')[2 * i + 1] == ""
    ensures SplitOn(Serialized(order, zips), '\n')[2 * |order|] == ""
  {
    var lines := LinesWithBlanks(order, zips);
    SerializedIsJoinedWithBlanks(order, zips);
    LinesWithBlanksPlain(order, zips);
    SplitOnJoin(lines + [""], '\n');
    assert SplitOn(Serialized(order, zips), '\n') == lines + [""];
    forall i | 0 <= i < |order|
      ensures lines[2 * i] + "\n" == Record(order[i], zips[order[i]]) && lines[2 * i + 1] == ""
    {
      LinesWithBlanksAt(order, zips, i);
      assert order[i] in order;
    }
  }

  // ---------------------------------------------------------------------
  // the script

  /** The two calls at the bottom of the script: read and de-duplicate the
      rows, then write the dictionary to the target. When a row raises,
      the target is never opened. */
  method RemoveDuplicateZips(rows: seq<string>, target: TextFile) returns (r: Result<seq<int>>)
    modifies target
    ensures DedupedZips(rows).Err? ==> r == Err(DedupedZips(rows).error) && target.contents == old(target.contents)
    ensures DedupedZips(rows).Ok? ==> r.Ok? && EnumeratesKeys(r.value, DedupedZips(rows).value)
                                      && target.contents == Serialized(r.value, DedupedZips(rows).value)
  {
    var dictOfZips := GetRidOfDuplicates(rows);
    match dictOfZips {
      case Err(e) =>
        return Err(e);
      case Ok(zips) =>
        var order := WriteToNewFile(target, zips);
        return Ok(order);
    }
  }
}
