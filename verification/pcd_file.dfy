// Writing and reading binary float PCD files (scripts/map/downsample_pcd.py).

module PcdFile {
  import opened Options
  import opened PcdText

  // The bits of one 4-byte float.
  type Word = w: int | 0 <= w < 0x1_0000_0000

  datatype Error = NotAscii | NoDataLine | MissingKey | NotBinary | NotSingleFloats | BadCount | Truncated

  datatype Result<T> = Ok(value: T) | Err(error: Error)

  datatype Cloud = Cloud(rows: seq<seq<Word>>, fields: seq<string>)

  type Header = map<string, seq<string>>

  // One header line: its key and its values.
  datatype Entry = Entry(key: string, values: seq<string>)

  // ---- writing ----

  function Line(e: Entry): string {
    e.key + " " + Join(e.values)
  }

  function Lines(entries: seq<Entry>): string {
    if entries == [] then "" else Line(entries[0]) + "\n" + Lines(entries[1..])
  }

  function Repeated(w: string, k: nat): (r: seq<string>)
    ensures |r| == k && forall i :: 0 <= i < k ==> r[i] == w
  {
    seq(k, _ => w)
  }

  const COMMENT := "# .PCD v0.7 - Point Cloud Data file format"

  function Entries(fields: seq<string>, n: nat): seq<Entry> {
    var k := |fields|;
    [Entry("VERSION", ["0.7"]), Entry("FIELDS", fields), Entry("SIZE", Repeated("4", k)),
     Entry("TYPE", Repeated("F", k)), Entry("COUNT", Repeated("1", k)), Entry("WIDTH", [Decimal(n)]),
     Entry("HEIGHT", ["1"]), Entry("VIEWPOINT", ["0", "0", "0", "1", "0", "0", "0"]),
     Entry("POINTS", [Decimal(n)])]
  }

  function Head(fields: seq<string>, n: nat): string {
    COMMENT + "\n" + Lines(Entries(fields, n)) + (Line(Entry("DATA", ["binary"])) + "\n")
  }

  // Little-endian.
  function WordBytes(w: Word): seq<Byte> {
    [w % 0x100, w / 0x100 % 0x100, w / 0x1_0000 % 0x100, w / 0x100_0000]
  }

  function RowBytes(row: seq<Word>): (r: seq<Byte>)
    ensures |r| == 4 * |row|
  {
    if row == [] then [] else WordBytes(row[0]) + RowBytes(row[1..])
  }

  function TableBytes(rows: seq<seq<Word>>): seq<Byte> {
    if rows == [] then [] else RowBytes(rows[0]) + TableBytes(rows[1..])
  }

  function Written(cloud: Cloud): Result<seq<Byte>> {
    var head := Head(cloud.fields, |cloud.rows|);
    if IsAscii(head) then Ok(Encode(head) + TableBytes(cloud.rows)) else Err(NotAscii)
  }

  // ---- reading ----

  // The length of the first line with its newline.
  function LineLength(file: seq<Byte>): (n: nat)
    requires file != []
    ensures 0 < n <= |file|
  {
    if file[0] == 10 || |file| == 1 then 1 else 1 + LineLength(file[1..])
  }

  function AddLine(header: Header, text: string): Header {
    var k := IndexOf(text, ' ');
    header[text[..k] := Words(if k < |text| then text[k + 1..] else "")]
  }

  predicate IsDataLine(text: string) {
    text[..IndexOf(text, ' ')] == "DATA"
  }

  predicate IsSkipped(text: string) {
    text == "" || text[0] == '#'
  }

  // The header lines up to the DATA line, and what follows it.
  function ReadHeader(file: seq<Byte>, header: Header): Result<(Header, seq<Byte>)>
    decreases |file|
  {
    if file == [] then Err(NoDataLine)
    else
      var n := LineLength(file);
      var text := Strip(Decode(file[..n]));
      if IsSkipped(text) then ReadHeader(file[n..], header)
      else if IsDataLine(text) then Ok((AddLine(header, text), file[n..]))
      else ReadHeader(file[n..], AddLine(header, text))
  }

  // set(words) == {w}
  predicate AreAll(words: seq<string>, w: string) {
    words != [] && forall i :: 0 <= i < |words| ==> words[i] == w
  }

  // n * 4 * k
  function BodySize(n: nat, k: nat): nat {
    if n == 0 then 0 else 4 * k + BodySize(n - 1, k)
  }

  lemma {:induction false} BodySizeIs(n: nat, k: nat)
    ensures BodySize(n, k) == n * 4 * k
  {
    if n > 0 {
      BodySizeIs(n - 1, k);
      assert n * 4 * k == (n - 1) * 4 * k + 4 * k;
    }
  }

  function ReadWord(b: seq<Byte>): Word
    requires |b| >= 4
  {
    (b[0] as int) + 0x100 * (b[1] as int) + 0x1_0000 * (b[2] as int) + 0x100_0000 * (b[3] as int)
  }

  function ReadRow(body: seq<Byte>, k: nat): (row: seq<Word>)
    requires |body| >= 4 * k
    ensures |row| == k
  {
    if k == 0 then [] else [ReadWord(body)] + ReadRow(body[4..], k - 1)
  }

  function ReadRows(body: seq<Byte>, n: nat, k: nat): (rows: seq<seq<Word>>)
    requires |body| >= BodySize(n, k)
    ensures |rows| == n && forall i :: 0 <= i < n ==> |rows[i]| == k
  {
    if n == 0 then [] else [ReadRow(body, k)] + ReadRows(body[4 * k..], n - 1, k)
  }

  function ReadBody(header: Header, body: seq<Byte>): Result<Cloud> {
    if "FIELDS" !in header || "DATA" !in header then Err(MissingKey)
    else if header["DATA"] != ["binary"] then Err(NotBinary)
    else if "TYPE" !in header then Err(MissingKey)
    else if !AreAll(header["TYPE"], "F") then Err(NotSingleFloats)
    else if "SIZE" !in header then Err(MissingKey)
    else if !AreAll(header["SIZE"], "4") then Err(NotSingleFloats)
    else if "COUNT" in header && !AreAll(header["COUNT"], "1") then Err(NotSingleFloats)
    else if "POINTS" !in header then Err(MissingKey)
    else if header["POINTS"] == [] then Err(BadCount)
    else
      match ParseInt(header["POINTS"][0])
      case None => Err(BadCount)
      case Some(n) =>
        var fields := header["FIELDS"];
        if n < 0 || |body| < BodySize(n, |fields|) then Err(Truncated)
        else Ok(Cloud(ReadRows(body, n, |fields|), fields))
  }

  function Parsed(file: seq<Byte>): Result<Cloud> {
    match ReadHeader(file, map[])
    case Err(e) => Err(e)
    case Ok(parts) => ReadBody(parts.0, parts.1)
  }

  // ---- the two methods ----

  method WritePcd(cloud: Cloud) returns (file: Result<seq<Byte>>)
    ensures file == Written(cloud)
  {
    var entries := Entries(cloud.fields, |cloud.rows|);
    var head := COMMENT + "\n" + Lines(entries) + (Line(Entry("DATA", ["binary"])) + "\n");
    if !IsAscii(head) {
      return Err(NotAscii);
    }
    var bytes := Encode(head);
    for i := 0 to |cloud.rows|
      invariant bytes + TableBytes(cloud.rows[i..]) == Encode(head) + TableBytes(cloud.rows)
    {
      assert cloud.rows[i..][1..] == cloud.rows[i + 1..];
      bytes := bytes + RowBytes(cloud.rows[i]);
    }
    assert bytes + [] == bytes;
    file := Ok(bytes);
  }

  method ReadPcd(file: seq<Byte>) returns (cloud: Result<Cloud>)
    ensures cloud == Parsed(file)
  {
    hide Strip, Decode, IndexOf, Words, LineLength, AddLine, IsDataLine, IsSkipped, ReadBody;
    var header: Header, at, reading := map[], 0, true;
    assert file[0..] == file;
    while reading
      invariant at <= |file|
      invariant ReadHeader(file, map[]) == if reading then ReadHeader(file[at..], header) else Ok((header, file[at..]))
      decreases reading, |file| - at
    {
      if at == |file| {
        return Err(NoDataLine);
      }
      var n := LineLength(file[at..]);
      var text := Strip(Decode(file[at..][..n]));
      assert file[at..][n..] == file[at + n..];
      at := at + n;
      if !IsSkipped(text) {
        header, reading := AddLine(header, text), !IsDataLine(text);
      }
    }
    cloud := ReadBody(header, file[at..]);
  }

  // ---- one line ----

  // A line the writer makes, as the reader sees it.
  ghost predicate IsHeaderLine(e: Entry) {
    IsPlain(e.key) && IsAscii(e.key) && e.key[0] != '#' && ArePlain(e.values)
      && forall i :: 0 <= i < |e.values| ==> IsAscii(e.values[i])
  }

  lemma {:induction false} FirstLine(text: string, rest: seq<Byte>)
    requires IsAscii(text) && forall i :: 0 <= i < |text| ==> text[i] != '\n'
    ensures IsAscii(text + "\n") && LineLength(Encode(text + "\n") + rest) == |text| + 1
  {
    var file := Encode(text + "\n") + rest;
    if text == "" {
      assert file[0] == 10;
    } else {
      FirstLine(text[1..], rest);
      assert text == [text[0]] + text[1..];
      assert file[1..] == Encode(text[1..] + "\n") + rest;
    }
  }

  lemma LineIsInline(e: Entry)
    requires IsHeaderLine(e)
    ensures var s := Line(e); IsAscii(s) && forall i :: 0 <= i < |s| ==> s[i] == ' ' || !IsSpace(s[i])
    ensures Line(e)[0] == e.key[0] && Line(e) == e.key + (" " + Join(e.values))
  {
    JoinIsInline(e.values);
  }

  lemma StripLine(e: Entry)
    requires IsHeaderLine(e)
    ensures Strip(Line(e) + "\n") == if e.values == [] then e.key else Line(e)
  {
    var s := Line(e) + "\n";
    LineIsInline(e);
    JoinIsInline(e.values);
    assert s[0] == e.key[0];
    assert LStrip(s) == s;
    assert s[|s| - 1] == '\n' && s[..|s| - 1] == Line(e);
    if e.values == [] {
      assert Line(e)[|Line(e)| - 1] == ' ' && Line(e)[..|Line(e)| - 1] == e.key;
      assert RStrip(s) == RStrip(Line(e)) && RStrip(Line(e)) == RStrip(e.key) && RStrip(e.key) == e.key;
    } else {
      assert Line(e)[|Line(e)| - 1] == Join(e.values)[|Join(e.values)| - 1];
      assert RStrip(Line(e)) == Line(e);
    }
  }

  lemma KeyEnds(e: Entry, text: string)
    requires IsHeaderLine(e) && (text == Line(e) || (e.values == [] && text == e.key))
    ensures IndexOf(text, ' ') == |e.key| && text[..|e.key|] == e.key
    ensures Words(if |e.key| < |text| then text[|e.key| + 1..] else "") == e.values
  {
    LineIsInline(e);
    WordsOfJoin(e.values);
    var tail := " " + Join(e.values);
    assert text == e.key + tail || text == e.key;
    FirstSpace(e.key, text);
    hide Words, IsSpace;
    assert text == e.key + tail ==> text[|e.key| + 1..] == Join(e.values);
  }

  lemma FirstSpace(key: string, text: string)
    requires IsPlain(key) && |key| <= |text| && text[..|key|] == key && (|key| < |text| ==> text[|key|] == ' ')
    ensures IndexOf(text, ' ') == |key|
  {
    assert forall i :: 0 <= i < |key| ==> text[i] == text[..|key|][i];
  }

  // One step of the header loop, on a first line s that says something.
  lemma ReadStep(s: string, rest: seq<Byte>, header: Header, text: string)
    requires IsAscii(s) && s != "" && LineLength(Encode(s) + rest) == |s| && text == Strip(s) && !IsSkipped(text)
    ensures ReadHeader(Encode(s) + rest, header)
            == if IsDataLine(text) then Ok((AddLine(header, text), rest)) else ReadHeader(rest, AddLine(header, text))
  {
    DecodeEncode(s);
    var file := Encode(s) + rest;
    assert |Encode(s)| == |s|;
    hide Strip, Encode, Decode, LineLength, IsAscii, IsSkipped, IsDataLine, AddLine;
    assert file[..|s|] == Encode(s) && file[|s|..] == rest;
  }

  // What the reader makes of the text of a line.
  lemma LineSays(e: Entry, header: Header)
    requires IsHeaderLine(e)
    ensures var text := Strip(Line(e) + "\n");
            !IsSkipped(text) && IsDataLine(text) == (e.key == "DATA")
            && AddLine(header, text) == header[e.key := e.values]
  {
    var text := Strip(Line(e) + "\n");
    LineIsInline(e);
    StripLine(e);
    KeyEnds(e, text);
    assert text[0] == e.key[0];
    hide Strip, IndexOf, Words, Line;
  }

  lemma ReadLine(e: Entry, rest: seq<Byte>, header: Header)
    requires IsHeaderLine(e)
    ensures IsAscii(Line(e) + "\n")
    ensures ReadHeader(Encode(Line(e) + "\n") + rest, header)
            == if e.key == "DATA" then Ok((header[e.key := e.values], rest))
            else ReadHeader(rest, header[e.key := e.values])
  {
    var s := Line(e) + "\n";
    LineIsInline(e);
    assert IsAscii(Line(e)) && forall i :: 0 <= i < |Line(e)| ==> Line(e)[i] != '\n';
    hide Strip, Line, Encode, LineLength, ReadHeader, IsHeaderLine, IsSkipped, IsDataLine, AddLine, IsSpace;
    FirstLine(Line(e), rest);
    LineSays(e, header);
    ReadStep(s, rest, header, Strip(s));
  }

  ghost function Filled(header: Header, entries: seq<Entry>): Header
    decreases |entries|
  {
    if entries == [] then header else Filled(header[entries[0].key := entries[0].values], entries[1..])
  }

  lemma {:induction false} ReadLines(entries: seq<Entry>, rest: seq<Byte>, header: Header)
    requires forall i :: 0 <= i < |entries| ==> IsHeaderLine(entries[i]) && entries[i].key != "DATA"
    ensures IsAscii(Lines(entries))
            && ReadHeader(Encode(Lines(entries)) + rest, header) == ReadHeader(rest, Filled(header, entries))
    decreases |entries|
  {
    hide IsHeaderLine, ReadHeader, Line;
    if entries == [] {
      assert Encode("") + rest == rest;
    } else {
      var e, tail := entries[0], Lines(entries[1..]);
      ReadLines(entries[1..], rest, header[e.key := e.values]);
      ReadLine(e, Encode(tail) + rest, header);
      EncodeConcat(Line(e) + "\n", tail);
      assert Encode(Line(e) + "\n") + Encode(tail) + rest == Encode(Line(e) + "\n") + (Encode(tail) + rest);
    }
  }

  // The last entry with a key decides its values.
  lemma {:induction false} FilledAt(header: Header, entries: seq<Entry>, i: nat)
    requires i < |entries| && forall j :: i < j < |entries| ==> entries[j].key != entries[i].key
    ensures entries[i].key in Filled(header, entries) && Filled(header, entries)[entries[i].key] == entries[i].values
    decreases |entries|
  {
    if i > 0 {
      FilledAt(header[entries[0].key := entries[0].values], entries[1..], i - 1);
    } else {
      FilledOther(header[entries[0].key := entries[0].values], entries[1..], entries[0].key);
    }
  }

  lemma {:induction false} FilledOther(header: Header, entries: seq<Entry>, key: string)
    requires key in header && forall j :: 0 <= j < |entries| ==> entries[j].key != key
    ensures key in Filled(header, entries) && Filled(header, entries)[key] == header[key]
    decreases |entries|
  {
    if entries != [] {
      FilledOther(header[entries[0].key := entries[0].values], entries[1..], key);
    }
  }

  ghost predicate IsKey(key: string) {
    IsPlain(key) && IsAscii(key) && key[0] != '#' && key != "DATA"
  }

  lemma FirstKeys()
    ensures IsKey("VERSION") && IsKey("FIELDS") && IsKey("SIZE") && IsKey("TYPE") && IsKey("COUNT")
  {
    assert "SIZE"[0] != "DATA"[0] && "TYPE"[0] != "DATA"[0];
  }

  lemma LastKeys()
    ensures IsKey("WIDTH") && IsKey("HEIGHT") && IsKey("VIEWPOINT") && IsKey("POINTS")
  {
  }

  lemma OneWord(key: string, w: string, k: nat)
    requires IsKey(key) && IsPlain(w) && IsAscii(w)
    ensures IsHeaderLine(Entry(key, [w])) && IsHeaderLine(Entry(key, Repeated(w, k)))
  {
    hide IsPlain, IsAscii;
  }

  lemma ViewpointIsLine()
    ensures IsHeaderLine(Entry("VIEWPOINT", ["0", "0", "0", "1", "0", "0", "0"]))
  {
    LastKeys();
    var v := ["0", "0", "0", "1", "0", "0", "0"];
    assert IsPlain("0") && IsPlain("1") && IsAscii("0") && IsAscii("1");
    hide IsPlain, IsAscii;
    assert forall i :: 0 <= i < |v| ==> v[i] == "0" || v[i] == "1";
  }

  lemma EntriesAreLines(fields: seq<string>, n: nat)
    requires ArePlain(fields) && forall i :: 0 <= i < |fields| ==> IsAscii(fields[i])
    ensures forall i :: 0 <= i < |Entries(fields, n)| ==>
              IsHeaderLine(Entries(fields, n)[i]) && Entries(fields, n)[i].key != "DATA"
  {
    FirstKeys();
    LastKeys();
    assert IsPlain("4") && IsPlain("F") && IsPlain("1") && IsPlain("0.7");
    assert IsAscii("4") && IsAscii("F") && IsAscii("1") && IsAscii("0.7");
    DecimalIsPlain(n);
    assert IsHeaderLine(Entry("FIELDS", fields));
    hide IsPlain, IsAscii, Decimal, IsSpace;
    OneWord("VERSION", "0.7", 0);
    OneWord("SIZE", "4", |fields|);
    OneWord("TYPE", "F", |fields|);
    OneWord("COUNT", "1", |fields|);
    OneWord("WIDTH", Decimal(n), 0);
    OneWord("HEIGHT", "1", 0);
    ViewpointIsLine();
    OneWord("POINTS", Decimal(n), 0);
    hide IsHeaderLine, Repeated;
  }

  // Which entry says what.
  lemma EntriesSay(fields: seq<string>, n: nat)
    ensures var h := Filled(map[], Entries(fields, n));
            var k := |fields|;
            && "FIELDS" in h && h["FIELDS"] == fields && "SIZE" in h && h["SIZE"] == Repeated("4", k)
            && "TYPE" in h && h["TYPE"] == Repeated("F", k) && "COUNT" in h && h["COUNT"] == Repeated("1", k)
            && "POINTS" in h && h["POINTS"] == [Decimal(n)]
  {
    var es := Entries(fields, n);
    assert "FIELDS"[0] != "HEIGHT"[0] && "FIELDS"[0] != "POINTS"[0] && "SIZE"[0] != "TYPE"[0]
           && "COUNT"[0] != "WIDTH"[0];
    hide Filled;
    FilledAt(map[], es, 1);
    FilledAt(map[], es, 2);
    FilledAt(map[], es, 3);
    FilledAt(map[], es, 4);
    FilledAt(map[], es, 8);
  }

  // The lines the reader here does not use say the format's version, the number of points as the width
  // of a cloud of height 1, and a viewpoint at the origin.
  lemma OtherEntriesSay(fields: seq<string>, n: nat)
    ensures var h := Filled(map[], Entries(fields, n));
            && "VERSION" in h && h["VERSION"] == ["0.7"]
            && "WIDTH" in h && h["WIDTH"] == [Decimal(n)] && "HEIGHT" in h && h["HEIGHT"] == ["1"]
            && "VIEWPOINT" in h && h["VIEWPOINT"] == ["0", "0", "0", "1", "0", "0", "0"]
  {
    var es := Entries(fields, n);
    assert "VERSION"[0] != "FIELDS"[0] && "VERSION"[0] != "SIZE"[0] && "VERSION"[0] != "TYPE"[0];
    assert "VERSION"[0] != "COUNT"[0] && "VERSION"[0] != "WIDTH"[0] && "VERSION"[0] != "HEIGHT"[0];
    assert "VERSION"[1] != "VIEWPOINT"[1] && "VERSION"[0] != "POINTS"[0];
    assert "WIDTH"[0] != "HEIGHT"[0] && "WIDTH"[0] != "VIEWPOINT"[0] && "WIDTH"[0] != "POINTS"[0];
    assert "HEIGHT"[0] != "VIEWPOINT"[0] && "HEIGHT"[0] != "POINTS"[0] && "VIEWPOINT"[0] != "POINTS"[0];
    hide Filled;
    FilledAt(map[], es, 0);
    FilledAt(map[], es, 5);
    FilledAt(map[], es, 6);
    FilledAt(map[], es, 7);
  }

  // What the header of a written cloud says.
  ghost predicate IsHeaderOf(h: Header, fields: seq<string>, n: nat) {
    var k := |fields|;
    && "VERSION" in h && h["VERSION"] == ["0.7"] && "DATA" in h && h["DATA"] == ["binary"]
    && "FIELDS" in h && h["FIELDS"] == fields && "SIZE" in h && h["SIZE"] == Repeated("4", k)
    && "TYPE" in h && h["TYPE"] == Repeated("F", k) && "COUNT" in h && h["COUNT"] == Repeated("1", k)
    && "WIDTH" in h && h["WIDTH"] == [Decimal(n)] && "HEIGHT" in h && h["HEIGHT"] == ["1"]
    && "VIEWPOINT" in h && h["VIEWPOINT"] == ["0", "0", "0", "1", "0", "0", "0"]
    && "POINTS" in h && h["POINTS"] == [Decimal(n)]
  }

  // Reading the header of a written file finds that, and all that follows it is the table.
  lemma HeaderSays(cloud: Cloud)
    requires ArePlain(cloud.fields) && forall i :: 0 <= i < |cloud.fields| ==> IsAscii(cloud.fields[i])
    ensures Written(cloud).Ok? && ReadHeader(Written(cloud).value, map[]).Ok?
    ensures var (h, body) := ReadHeader(Written(cloud).value, map[]).value;
            IsHeaderOf(h, cloud.fields, |cloud.rows|) && body == TableBytes(cloud.rows)
  {
    HeadReadsBack(cloud.fields, |cloud.rows|, TableBytes(cloud.rows));
    EntriesSay(cloud.fields, |cloud.rows|);
    OtherEntriesSay(cloud.fields, |cloud.rows|);
    DataIsOther();
    hide ReadHeader, Encode, IsAscii, Decimal, Head, TableBytes, Repeated, Filled, Entries;
  }

  lemma DataIsOther()
    ensures "DATA" != "VERSION" && "DATA" != "FIELDS" && "DATA" != "SIZE" && "DATA" != "TYPE" && "DATA" != "COUNT"
    ensures "DATA" != "WIDTH" && "DATA" != "HEIGHT" && "DATA" != "VIEWPOINT" && "DATA" != "POINTS"
  {
    assert "DATA"[0] != "VERSION"[0] && "DATA"[0] != "FIELDS"[0] && "DATA"[0] != "SIZE"[0] && "DATA"[0] != "TYPE"[0];
    assert "DATA"[0] != "COUNT"[0] && "DATA"[0] != "WIDTH"[0] && "DATA"[0] != "HEIGHT"[0];
    assert "DATA"[0] != "VIEWPOINT"[0] && "DATA"[0] != "POINTS"[0];
  }

  // Which header and body are read: all keys there but the count's, which may be missing; binary; single
  // 4-byte floats; a count of points that is a number and not negative; and a body that long.
  lemma ReadExactly(h: Header, body: seq<Byte>)
    ensures ReadBody(h, body).Ok? <==>
              && "FIELDS" in h && "DATA" in h && "TYPE" in h && "SIZE" in h && "POINTS" in h
              && h["DATA"] == ["binary"] && IsOnly(h["TYPE"], "F") && IsOnly(h["SIZE"], "4")
              && ("COUNT" in h ==> IsOnly(h["COUNT"], "1"))
              && h["POINTS"] != [] && ParseInt(h["POINTS"][0]).Some?
              && var n := ParseInt(h["POINTS"][0]).value; n >= 0 && |body| >= n * 4 * |h["FIELDS"]|
  {
    if "TYPE" in h { AllAreOnly(h["TYPE"], "F"); }
    if "SIZE" in h { AllAreOnly(h["SIZE"], "4"); }
    if "COUNT" in h { AllAreOnly(h["COUNT"], "1"); }
    hide ReadRows, ParseInt, BodySize, IsOnly, AreAll;
    if "POINTS" in h && "FIELDS" in h && h["POINTS"] != [] && ParseInt(h["POINTS"][0]).Some? {
      var n := ParseInt(h["POINTS"][0]).value;
      if n >= 0 { BodySizeIs(n, |h["FIELDS"]|); }
    }
  }

  // The set of the words is {w}.
  ghost predicate IsOnly(words: seq<string>, w: string) {
    (set x | x in words) == {w}
  }

  lemma AllAreOnly(words: seq<string>, w: string)
    ensures AreAll(words, w) <==> IsOnly(words, w)
  {
    if AreAll(words, w) { assert words[0] == w; }
    if IsOnly(words, w) {
      var all := set x | x in words;
      assert w in all;
      forall i | 0 <= i < |words|
        ensures words[i] == w
      {
        assert words[i] in all;
      }
    }
  }

  ghost function LittleEndian(b0: int, b1: int, b2: int, b3: int): int {
    b0 + 0x100 * (b1 + 0x100 * (b2 + 0x100 * b3))
  }

  // The c-th value of the i-th row is the little-endian word at its place in the body.
  lemma {:induction false} WordAt(body: seq<Byte>, n: nat, k: nat, i: nat, c: nat)
    requires |body| >= BodySize(n, k) && i < n && c < k
    ensures var at := 4 * Place(i, k, c);
            && at + 4 <= |body|
            && ReadRows(body, n, k)[i][c]
               == LittleEndian(body[at], body[at + 1], body[at + 2], body[at + 3])
    decreases n
  {
    if i > 0 {
      WordAt(body[4 * k..], n - 1, k, i - 1, c);
    } else {
      WordInRow(body, k, c);
    }
  }

  // How many values come before that one.
  ghost function Place(i: nat, k: nat, c: nat): nat {
    if i == 0 then c else k + Place(i - 1, k, c)
  }

  lemma {:induction false} PlaceIs(i: nat, k: nat, c: nat)
    ensures Place(i, k, c) == i * k + c
  {
    if i > 0 {
      PlaceIs(i - 1, k, c);
      assert i * k == (i - 1) * k + k;
    }
  }

  lemma {:induction false} WordInRow(body: seq<Byte>, k: nat, c: nat)
    requires |body| >= 4 * k && c < k
    ensures ReadRow(body, k)[c]
            == LittleEndian(body[4 * c], body[4 * c + 1], body[4 * c + 2], body[4 * c + 3])
  {
    if c > 0 { WordInRow(body[4..], k - 1, c - 1); }
  }

  // ---- the body ----

  lemma WordReadsBack(w: Word, rest: seq<Byte>)
    ensures ReadWord(WordBytes(w) + rest) == w
  {
    var b := WordBytes(w);
    var r := b + rest;
    assert r[0] == b[0] && r[1] == b[1] && r[2] == b[2] && r[3] == b[3];
    assert w == w % 0x100 + 0x100 * (w / 0x100);
    assert w / 0x100 == w / 0x100 % 0x100 + 0x100 * (w / 0x1_0000);
    assert w / 0x1_0000 == w / 0x1_0000 % 0x100 + 0x100 * (w / 0x100_0000);
  }

  lemma {:induction false} RowReadsBack(row: seq<Word>, rest: seq<Byte>)
    ensures ReadRow(RowBytes(row) + rest, |row|) == row
  {
    hide WordBytes, ReadWord;
    if row != [] {
      var tail := RowBytes(row[1..]) + rest;
      WordReadsBack(row[0], tail);
      RowReadsBack(row[1..], rest);
      assert RowBytes(row) + rest == WordBytes(row[0]) + tail;
      assert (WordBytes(row[0]) + tail)[4..] == tail;
    }
  }

  lemma {:induction false} TableSize(rows: seq<seq<Word>>, k: nat)
    requires forall i :: 0 <= i < |rows| ==> |rows[i]| == k
    ensures |TableBytes(rows)| == BodySize(|rows|, k)
  {
    hide RowBytes;
    if rows != [] {
      TableSize(rows[1..], k);
    }
  }

  lemma FirstRow(first: seq<Byte>, rest: seq<Byte>, n: nat, k: nat)
    requires |first| == 4 * k && |rest| >= BodySize(n, k)
    ensures |first + rest| >= BodySize(n + 1, k)
    ensures ReadRows(first + rest, n + 1, k) == [ReadRow(first + rest, k)] + ReadRows(rest, n, k)
  {
    hide ReadRow;
    assert (first + rest)[4 * k..] == rest;
  }

  lemma NoRows(k: nat)
    ensures TableBytes([]) == [] && BodySize(0, k) == 0 && ReadRows([], 0, k) == []
  {
  }

  // One more row in front is read back before the others.
  lemma OneMoreRow(row: seq<Word>, rows: seq<seq<Word>>, k: nat)
    requires |row| == k && |TableBytes(rows)| == BodySize(|rows|, k) && ReadRows(TableBytes(rows), |rows|, k) == rows
    ensures TableBytes([row] + rows) == RowBytes(row) + TableBytes(rows)
    ensures |RowBytes(row) + TableBytes(rows)| >= BodySize(|rows| + 1, k)
    ensures ReadRows(RowBytes(row) + TableBytes(rows), |rows| + 1, k) == [row] + rows
  {
    RowReadsBack(row, TableBytes(rows));
    FirstRow(RowBytes(row), TableBytes(rows), |rows|, k);
    assert ([row] + rows)[1..] == rows;
    hide RowBytes, ReadRow, ReadRows, BodySize;
  }

  lemma {:induction false} TableReadsBack(rows: seq<seq<Word>>, k: nat)
    requires forall i :: 0 <= i < |rows| ==> |rows[i]| == k
    ensures |TableBytes(rows)| == BodySize(|rows|, k) && ReadRows(TableBytes(rows), |rows|, k) == rows
  {
    hide TableBytes, RowBytes, ReadRow, ReadRows, BodySize;
    TableSize(rows, k);
    NoRows(k);
    if rows != [] {
      TableReadsBack(rows[1..], k);
      OneMoreRow(rows[0], rows[1..], k);
      assert rows == [rows[0]] + rows[1..];
    }
  }

  // ---- the file ----

  lemma HeadBytes(comment: string, lines: string, last: string, body: seq<Byte>)
    requires IsAscii(comment) && IsAscii(lines) && IsAscii(last)
    ensures IsAscii(comment + lines + last)
    ensures Encode(comment + lines + last) + body == Encode(comment) + (Encode(lines) + (Encode(last) + body))
  {
    EncodeConcat(comment, lines);
    EncodeConcat(comment + lines, last);
    hide Encode, IsAscii;
    var a, b, c := Encode(comment), Encode(lines), Encode(last);
    assert a + b + c + body == a + (b + (c + body));
  }

  lemma HeadReadsBack(fields: seq<string>, n: nat, body: seq<Byte>)
    requires ArePlain(fields) && forall i :: 0 <= i < |fields| ==> IsAscii(fields[i])
    ensures IsAscii(Head(fields, n))
    ensures ReadHeader(Encode(Head(fields, n)) + body, map[])
            == Ok((Filled(map[], Entries(fields, n))["DATA" := ["binary"]], body))
  {
    var es, last := Entries(fields, n), Entry("DATA", ["binary"]);
    EntriesAreLines(fields, n);
    assert IsHeaderLine(last);
    hide ReadHeader, Line, Lines, Entries, Filled, Encode, IsAscii, IsHeaderLine;
    ReadLine(last, body, Filled(map[], es));
    ReadLines(es, Encode(Line(last) + "\n") + body, map[]);
    CommentSkipped(Encode(Lines(es)) + (Encode(Line(last) + "\n") + body));
    HeadBytes(COMMENT + "\n", Lines(es), Line(last) + "\n", body);
  }

  lemma CommentSkipped(rest: seq<Byte>)
    ensures IsAscii(COMMENT + "\n") && ReadHeader(Encode(COMMENT + "\n") + rest, map[]) == ReadHeader(rest, map[])
  {
    var s := COMMENT + "\n";
    assert COMMENT[0] == '#' && s[0] == COMMENT[0];
    FirstLine(COMMENT, rest);
    var file := Encode(s) + rest;
    assert file[..|s|] == Encode(s) && file[|s|..] == rest;
    DecodeEncode(s);
    assert LStrip(s) == s;
    KeepsFirst(s);
  }

  lemma {:induction false} KeepsFirst(s: string)
    requires s != "" && !IsSpace(s[0])
    ensures RStrip(s) != "" && RStrip(s)[0] == s[0]
  {
    if IsSpace(s[|s| - 1]) { KeepsFirst(s[..|s| - 1]); }
  }

  // For plain names: what the reader makes of the written file.
  lemma WrittenReads(cloud: Cloud)
    requires forall i :: 0 <= i < |cloud.rows| ==> |cloud.rows[i]| == |cloud.fields|
    requires ArePlain(cloud.fields) && forall i :: 0 <= i < |cloud.fields| ==> IsAscii(cloud.fields[i])
    ensures Written(cloud).Ok?
    ensures Parsed(Written(cloud).value) == if cloud.fields == [] then Err(NotSingleFloats) else Ok(cloud)
  {
    var n, k, fields := |cloud.rows|, |cloud.fields|, cloud.fields;
    var body := TableBytes(cloud.rows);
    HeadReadsBack(fields, n, body);
    EntriesSay(fields, n);
    TableReadsBack(cloud.rows, k);
    var h := Filled(map[], Entries(fields, n))["DATA" := ["binary"]];
    assert "DATA"[0] != "SIZE"[0] && "DATA"[0] != "TYPE"[0];
    BodyReads(h, cloud, body);
    hide ReadHeader, ReadBody, Filled, Entries, Head, Encode, IsAscii;
  }

  lemma BodyReads(h: Header, cloud: Cloud, body: seq<Byte>)
    requires var k := |cloud.fields|;
             && "DATA" in h && h["DATA"] == ["binary"] && "FIELDS" in h && h["FIELDS"] == cloud.fields
             && "SIZE" in h && h["SIZE"] == Repeated("4", k) && "TYPE" in h && h["TYPE"] == Repeated("F", k)
             && "COUNT" in h && h["COUNT"] == Repeated("1", k) && "POINTS" in h
                && h["POINTS"] == [Decimal(|cloud.rows|)]
    requires |body| == BodySize(|cloud.rows|, |cloud.fields|)
             && ReadRows(body, |cloud.rows|, |cloud.fields|) == cloud.rows
    ensures ReadBody(h, body) == if cloud.fields == [] then Err(NotSingleFloats) else Ok(cloud)
  {
    DecimalReadsBack(|cloud.rows|);
    hide ReadRows, BodySize, ParseInt, Decimal, IsNumeral;
    assert cloud.fields != [] ==> h["TYPE"] != [] && h["SIZE"] != [] && h["COUNT"] != [];
  }

  // Whatever the file, the names read from it are plain.
  lemma {:induction false} HeaderIsPlain(file: seq<Byte>, header: Header)
    requires ReadHeader(file, header).Ok? && forall k :: k in header ==> ArePlain(header[k])
    ensures var h := ReadHeader(file, header).value.0; forall k :: k in h ==> ArePlain(h[k])
    decreases |file|
  {
    var n := LineLength(file);
    var text := Strip(Decode(file[..n]));
    LineIsPlain(header, text);
    hide Strip, Decode, AddLine, ArePlain, LineLength;
    if IsSkipped(text) {
      HeaderIsPlain(file[n..], header);
    } else if !IsDataLine(text) {
      HeaderIsPlain(file[n..], AddLine(header, text));
    }
  }

  lemma LineIsPlain(header: Header, text: string)
    requires forall k :: k in header ==> ArePlain(header[k])
    ensures var h := AddLine(header, text); forall k :: k in h ==> ArePlain(h[k])
  {
    var n := IndexOf(text, ' ');
    WordsArePlain(if n < |text| then text[n + 1..] else "");
  }

  lemma ReadNamesArePlain(file: seq<Byte>)
    requires Parsed(file).Ok?
    ensures ArePlain(Parsed(file).value.fields)
  {
    HeaderIsPlain(file, map[]);
    hide ReadHeader, ArePlain;
  }

  // Reading back a written cloud gives it exactly when it has field names, every one of them
  // without white space and not empty; names beyond ASCII are not written at all.
  lemma RoundTrip(cloud: Cloud)
    requires forall i :: 0 <= i < |cloud.rows| ==> |cloud.rows[i]| == |cloud.fields|
    ensures Written(cloud).Ok? <==> forall i :: 0 <= i < |cloud.fields| ==> IsAscii(cloud.fields[i])
    ensures Written(cloud).Ok? ==>
              (Parsed(Written(cloud).value) == Ok(cloud) <==> cloud.fields != [] && ArePlain(cloud.fields))
  {
    HeadIsAscii(cloud.fields, |cloud.rows|);
    if Written(cloud).Ok? {
      if ArePlain(cloud.fields) {
        WrittenReads(cloud);
      } else if Parsed(Written(cloud).value).Ok? {
        ReadNamesArePlain(Written(cloud).value);
      }
    }
  }

  lemma {:induction false} JoinAscii(words: seq<string>)
    ensures IsAscii(Join(words)) <==> forall i :: 0 <= i < |words| ==> IsAscii(words[i])
  {
    if |words| > 1 {
      JoinAscii(words[1..]);
      AsciiParts(words[0] + " ", Join(words[1..]));
      AsciiParts(words[0], " ");
      assert forall i :: 0 <= i < |words| ==> words[i] == if i == 0 then words[0] else words[1..][i - 1];
    }
  }

  lemma AsciiParts(a: string, b: string)
    ensures IsAscii(a + b) <==> IsAscii(a) && IsAscii(b)
  {
    var s := a + b;
    assert forall i :: 0 <= i < |a| ==> s[i] == a[i];
    assert forall i :: 0 <= i < |b| ==> s[|a| + i] == b[i];
  }

  lemma {:induction false} LinesAscii(entries: seq<Entry>)
    ensures IsAscii(Lines(entries)) <==> forall i :: 0 <= i < |entries| ==> IsAscii(Line(entries[i]))
  {
    hide Line;
    if entries != [] {
      LinesAscii(entries[1..]);
      AsciiParts(Line(entries[0]) + "\n", Lines(entries[1..]));
      AsciiParts(Line(entries[0]), "\n");
      assert forall i :: 0 <= i < |entries| ==> entries[i] == if i == 0 then entries[0] else entries[1..][i - 1];
    }
  }

  lemma LineAscii(e: Entry)
    requires IsAscii(e.key)
    ensures IsAscii(Line(e)) <==> forall i :: 0 <= i < |e.values| ==> IsAscii(e.values[i])
  {
    JoinAscii(e.values);
    AsciiParts(e.key + " ", Join(e.values));
    AsciiParts(e.key, " ");
  }

  lemma EntriesAscii(fields: seq<string>, n: nat)
    ensures forall i :: 0 <= i < |Entries(fields, n)| && i != 1 ==> IsAscii(Line(Entries(fields, n)[i]))
    ensures IsAscii(Line(Entries(fields, n)[1])) <==> forall i :: 0 <= i < |fields| ==> IsAscii(fields[i])
  {
    var es := Entries(fields, n);
    FieldsAscii(fields);
    hide IsAscii, Line;
    forall i | 0 <= i < |es| && i != 1
      ensures IsAscii(Line(es[i]))
    {
      EntryAscii(fields, n, i);
    }
  }

  lemma FieldsAscii(fields: seq<string>)
    ensures IsAscii(Line(Entry("FIELDS", fields))) <==> forall i :: 0 <= i < |fields| ==> IsAscii(fields[i])
  {
    FirstKeys();
    hide Line;
    LineAscii(Entry("FIELDS", fields));
  }

  // All lines but that of the names are the same whatever the names, but for their number.
  lemma EntryAscii(fields: seq<string>, n: nat, i: nat)
    requires i < |Entries(fields, n)| && i != 1
    ensures IsAscii(Line(Entries(fields, n)[i]))
  {
    var plain := Repeated("x", |fields|);
    assert IsPlain("x") && IsAscii("x");
    EntriesAreLines(plain, n);
    assert Entries(plain, n)[i] == Entries(fields, n)[i];
    hide IsPlain, IsSpace;
    LineIsInline(Entries(fields, n)[i]);
  }

  lemma ThreeAscii(a: string, b: string, c: string)
    ensures IsAscii(a + b + c) <==> IsAscii(a) && IsAscii(b) && IsAscii(c)
  {
    AsciiParts(a + b, c);
    AsciiParts(a, b);
  }

  lemma HeadIsAscii(fields: seq<string>, n: nat)
    ensures IsAscii(Head(fields, n)) <==> forall i :: 0 <= i < |fields| ==> IsAscii(fields[i])
  {
    var es, last := Entries(fields, n), Entry("DATA", ["binary"]);
    EntriesAscii(fields, n);
    assert |es| == 9;
    LineAscii(last);
    assert IsAscii(Line(last)) by { assert IsAscii(last.values[0]); }
    AsciiParts(Line(last), "\n");
    CommentSkipped([]);
    hide Entries, Line, Lines, IsAscii;
    LinesAscii(es);
    ThreeAscii(COMMENT + "\n", Lines(es), Line(last) + "\n");
  }
}
