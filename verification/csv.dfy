/**
  The CSV export (wifite.py `export_results`, choice "1"): a fixed header
  line, then one line per record with its seven displayed values joined by
  ',' and ended by '\n', in inventory order, with no quoting or escaping.
  The decoder is what a reader of such a file would do; the round trip
  holds exactly when no SSID or BSSID contains a ',' or a line break.
 */
module Csv {
  import opened Maybe
  import opened Decimal
  import opened Text
  import opened Network
  import Table

  /** The column names of the export, in field order. */
  const FieldNames: seq<string> := ["SSID", "BSSID", "Signal", "Frequency", "Channel", "Security", "Encryption"]

  /** The header line, "SSID,BSSID,Signal,Frequency,Channel,Security,Encryption" (without its line break). */
  const Header: string := Join(FieldNames, ',')

  /**
    The data line of one record, without its line break (wifite.py:105-107).
    When no SSID or BSSID holds a comma, splitting the line at commas gives
    the displayed values back.
   */
  function Line(r: Record): (l: string)
    ensures CsvSafe(r) ==> Split(l, ',') == Display(r)
  {
    var l := Join(Display(r), ',');
    assert CsvSafe(r) ==> Split(l, ',') == Display(r) by {
      if CsvSafe(r) {
        DisplayHasNoSeparators(r, ',');
        SplitJoin(Display(r), ',');
      }
    }
    l
  }

  /** The data lines of an inventory, one per record, in inventory order. */
  function DataLines(inv: seq<Record>): (ls: seq<string>)
    ensures |ls| == |inv|
  {
    seq(|inv|, i requires 0 <= i < |inv| => Line(inv[i]))
  }

  /** The data lines of two inventories written one after the other are the lines of their concatenation. */
  lemma DataLinesAppend(a: seq<Record>, b: seq<Record>)
    ensures DataLines(a + b) == DataLines(a) + DataLines(b)
  {
    var l := DataLines(a + b);
    var r := DataLines(a) + DataLines(b);
    forall i | 0 <= i < |l|
      ensures l[i] == r[i]
    {
      if i < |a| {
        assert (a + b)[i] == a[i];
      } else {
        assert (a + b)[i] == b[i - |a|];
      }
    }
  }

  /** The file contents written for an inventory (wifite.py:103-108). */
  function Encode(inv: seq<Record>): (text: string)
    ensures |text| > |Header| && text[..|Header| + 1] == Header + "\n"
    ensures |inv| == 0 ==> text == Header + "\n"
  {
    var ls := [Header] + DataLines(inv);
    assert ls[0] == Header && ls[1..] == DataLines(inv);
    var text := Lines(ls);
    assert text == Header + "\n" + Lines(DataLines(inv));
    assert |inv| == 0 ==> DataLines(inv) == [];
    text
  }

  /** Each record writes one more line at the end: the file grows by appending only. */
  lemma EncodeAppend(inv: seq<Record>, r: Record)
    ensures Encode(inv + [r]) == Encode(inv) + Line(r) + "\n"
  {
    assert [Header] + DataLines(inv + [r]) == ([Header] + DataLines(inv)) + [Line(r)];
    LinesAppend([Header] + DataLines(inv), Line(r));
  }

  /** A CSV data line is the table row of the same record without its rank cell. */
  lemma LineIsRowWithoutRank(inv: seq<Record>, i: int)
    requires 0 <= i < |inv|
    ensures DataLines(inv)[i] == Join(Table.Rows(inv)[i][1..], ',')
  {
  }

  function ParseFrequency(s: string): (r: Option<int>)
  {
    if |s| >= 4 && s[|s| - 4..] == " MHz" then ParseInt(s[..|s| - 4]) else None
  }

  function ParseSecurity(s: string): (r: Option<Security>)
  {
    if s == "Open" then Some(Open)
    else if s == "Secured" then Some(Secured)
    else None
  }

  function ParseEncryption(s: string): (r: Option<Encryption>)
  {
    if s == "None" then Some(Unencrypted)
    else if s == "WPA" then Some(Wpa)
    else if s == "WPA2" then Some(Wpa2)
    else if s == "Unknown" then Some(Unknown)
    else None
  }

  /** A record from one data line: exactly seven fields, each readable. */
  function DecodeLine(l: string): (r: Option<Record>)
  {
    var f := Split(l, ',');
    if |f| != 7 then None
    else
      var signal, freq, channel := ParseInt(f[2]), ParseFrequency(f[3]), ParseInt(f[4]);
      var security, encryption := ParseSecurity(f[5]), ParseEncryption(f[6]);
      if signal.None? || freq.None? || channel.None? || security.None? || encryption.None? then None
      else Some(Record(f[0], f[1], signal.value, freq.value, channel.value, security.value, encryption.value))
  }

  function DecodeLines(ls: seq<string>): (r: Option<seq<Record>>)
    ensures r.Some? ==> |r.value| == |ls|
    decreases |ls|
  {
    if |ls| == 0 then Some([])
    else
      var first, rest := DecodeLine(ls[0]), DecodeLines(ls[1..]);
      if first.None? || rest.None? then None else Some([first.value] + rest.value)
  }

  /** The records of a CSV text; `None` unless it is a header, then well-formed data lines, each ended by '\n'. */
  function Decode(text: string): (r: Option<seq<Record>>)
  {
    var lines := Split(text, '\n');
    if |lines| >= 2 && lines[0] == Header && lines[|lines| - 1] == "" then
      DecodeLines(lines[1..|lines| - 1])
    else None
  }

  /** No field of the record contains the field or line separator. */
  predicate CsvSafe(r: Record) {
    ',' !in r.ssid && '\n' !in r.ssid && ',' !in r.bssid && '\n' !in r.bssid
  }

  lemma NamesHaveNoSeparators(r: Record, d: char)
    requires d == ',' || d == '\n'
    ensures d !in SecurityName(r.security) && d !in EncryptionName(r.encryption)
  {
  }

  /** Every displayed value after the SSID is free of separators when the BSSID is. */
  lemma TailHasNoSeparators(r: Record, d: char)
    requires d == ',' || d == '\n'
    requires d !in r.bssid
    ensures NoneContains(Display(r)[1..], d)
  {
    var t := Display(r)[1..];
    assert t == [r.bssid, IntToString(r.signal), FrequencyText(r.frequency), IntToString(r.channel),
                 SecurityName(r.security), EncryptionName(r.encryption)];
    IntToStringHasNoSeparators(r.signal);
    IntToStringHasNoSeparators(r.channel);
    assert d !in FrequencyText(r.frequency) by {
      IntToStringHasNoSeparators(r.frequency);
    }
    NamesHaveNoSeparators(r, d);
  }

  lemma DisplayHasNoSeparators(r: Record, d: char)
    requires CsvSafe(r)
    requires d == ',' || d == '\n'
    ensures NoneContains(Display(r), d)
  {
    var f := Display(r);
    TailHasNoSeparators(r, d);
    forall k | 0 <= k < |f|
      ensures d !in f[k]
    {
      if k > 0 {
        assert f[k] == f[1..][k - 1];
      }
    }
  }

  lemma FrequencyRoundTrip(f: int)
    ensures ParseFrequency(FrequencyText(f)) == Some(f)
  {
    var t := FrequencyText(f);
    var s := IntToString(f);
    assert t[..|t| - 4] == s;
    assert t[|t| - 4..] == " MHz";
    IntRoundTrip(f);
  }

  lemma DecodeLineOfLine(r: Record)
    requires CsvSafe(r)
    ensures DecodeLine(Line(r)) == Some(r)
  {
    var f := Display(r);
    assert Split(Line(r), ',') == f;
    assert ParseInt(f[2]) == Some(r.signal) by {
      IntRoundTrip(r.signal);
    }
    assert ParseFrequency(f[3]) == Some(r.frequency) by {
      FrequencyRoundTrip(r.frequency);
    }
    assert ParseInt(f[4]) == Some(r.channel) by {
      IntRoundTrip(r.channel);
    }
    assert ParseSecurity(f[5]) == Some(r.security);
    assert ParseEncryption(f[6]) == Some(r.encryption);
  }

  lemma {:induction false} DecodeDataLines(inv: seq<Record>)
    requires forall i :: 0 <= i < |inv| ==> CsvSafe(inv[i])
    ensures DecodeLines(DataLines(inv)) == Some(inv)
    decreases |inv|
  {
    if |inv| > 0 {
      var rest := inv[1..];
      assert inv == [inv[0]] + rest;
      DataLinesCons(inv[0], rest);
      var ls := [Line(inv[0])] + DataLines(rest);
      assert ls[0] == Line(inv[0]) && ls[1..] == DataLines(rest);
      DecodeLineOfLine(inv[0]);
      DecodeDataLines(rest);
    }
  }

  /** The export is the header and the data lines, each followed by a line break. */
  lemma EncodeAsLines(inv: seq<Record>)
    ensures Encode(inv) == Lines([Header] + DataLines(inv))
  {
  }

  /** No line of the export of a safe inventory contains a line break. */
  lemma EncodedLinesUnbroken(inv: seq<Record>)
    requires forall i :: 0 <= i < |inv| ==> CsvSafe(inv[i])
    ensures NoneContains([Header] + DataLines(inv), '\n')
  {
    var ls := [Header] + DataLines(inv);
    DataLinesUnbroken(inv);
    HeaderUnbroken();
    forall k | 0 <= k < |ls|
      ensures '\n' !in ls[k]
    {
      if k > 0 {
        assert ls[k] == DataLines(inv)[k - 1];
      }
    }
  }

  lemma DataLinesUnbroken(inv: seq<Record>)
    requires forall i :: 0 <= i < |inv| ==> CsvSafe(inv[i])
    ensures NoneContains(DataLines(inv), '\n')
  {
    forall k | 0 <= k < |inv|
      ensures '\n' !in DataLines(inv)[k]
    {
      LineUnbroken(inv[k]);
    }
  }

  lemma HeaderUnbroken()
    ensures '\n' !in Header
  {
    assert NoneContains(FieldNames, '\n');
    JoinKeepsOut(FieldNames, ',', '\n');
  }

  lemma LineUnbroken(r: Record)
    requires CsvSafe(r)
    ensures '\n' !in Line(r)
  {
    DisplayHasNoSeparators(r, '\n');
    JoinKeepsOut(Display(r), ',', '\n');
  }

  /** Reading the exported text back recovers the inventory, in order, when no SSID or BSSID holds a separator. */
  lemma DecodeEncode(inv: seq<Record>)
    requires forall i :: 0 <= i < |inv| ==> CsvSafe(inv[i])
    ensures Decode(Encode(inv)) == Some(inv)
  {
    EncodeAsLines(inv);
    EncodedLinesUnbroken(inv);
    DecodeFramed(DataLines(inv));
    DecodeDataLines(inv);
  }

  /** A header followed by unbroken lines decodes as those lines do. */
  lemma DecodeFramed(data: seq<string>)
    requires NoneContains([Header] + data, '\n')
    ensures Decode(Lines([Header] + data)) == DecodeLines(data)
  {
    var ls := [Header] + data;
    SplitLines(ls);
    var lines := ls + [""];
    assert Split(Lines(ls), '\n') == lines;
    assert lines[0] == Header && lines[|lines| - 1] == "";
    assert lines[1..|lines| - 1] == data;
  }

  /** Joining never introduces a character other than the separator. */
  lemma {:induction false} JoinKeepsOut(parts: seq<string>, d: char, c: char)
    requires c != d && NoneContains(parts, c)
    ensures c !in Join(parts, d)
    decreases |parts|
  {
    if |parts| > 1 {
      JoinKeepsOut(parts[1..], d, c);
    }
  }

  /**
    With no escaping, an SSID holding a comma splits into two fields: such a
    line has eight fields and the text no longer reads back.
   */
  lemma CommaInSsidBreaksRoundTrip(r: Record, a: string, b: string)
    requires r.ssid == a + "," + b
    requires ',' !in a && ',' !in b && ',' !in r.bssid
    ensures Split(Line(r), ',') == [a, b] + Display(r)[1..]
    ensures |Split(Line(r), ',')| == 8
    ensures DecodeLine(Line(r)) == None
  {
    var f := Display(r);
    var rest := Join(f[1..], ',');
    var g := [a, b] + f[1..];
    assert NoneContains(g, ',') by {
      TailHasNoSeparators(r, ',');
      forall k | 0 <= k < |g|
        ensures ',' !in g[k]
      {
        if k >= 2 {
          assert g[k] == f[1..][k - 2];
        }
      }
    }
    assert Join(g, ',') == Line(r) by {
      assert g[1..] == [b] + f[1..];
      assert Join(g[1..], ',') == b + [','] + rest;
      assert Join(g, ',') == a + [','] + (b + [','] + rest);
      assert Line(r) == (a + "," + b) + [','] + rest;
    }
    SplitJoin(g, ',');
  }

  lemma FrequencyTextOfParse(t: string, f: int)
    requires ParseFrequency(t) == Some(f)
    ensures FrequencyText(f) == t
  {
    var g := t[..|t| - 4];
    StringRoundTrip(g, f);
    assert t == g + " MHz";
  }

  lemma SecurityNameOfParse(t: string, s: Security)
    requires ParseSecurity(t) == Some(s)
    ensures SecurityName(s) == t
  {
  }

  lemma EncryptionNameOfParse(t: string, e: Encryption)
    requires ParseEncryption(t) == Some(e)
    ensures EncryptionName(e) == t
  {
  }

  /** A line that decodes is the encoding of what it decodes to, and that record is safe. */
  lemma LineOfDecodeLine(l: string, r: Record)
    requires '\n' !in l
    requires DecodeLine(l) == Some(r)
    ensures Line(r) == l && CsvSafe(r)
  {
    var f := Split(l, ',');
    assert |f| == 7;
    assert Display(r) == f by {
      StringRoundTrip(f[2], r.signal);
      FrequencyTextOfParse(f[3], r.frequency);
      StringRoundTrip(f[4], r.channel);
      SecurityNameOfParse(f[5], r.security);
      EncryptionNameOfParse(f[6], r.encryption);
    }
    assert CsvSafe(r) by {
      JoinSplit(l, ',');
      SplitKeepsOut(l, ',', '\n');
    }
    JoinSplit(l, ',');
  }

  lemma DataLinesCons(r: Record, rest: seq<Record>)
    ensures DataLines([r] + rest) == [Line(r)] + DataLines(rest)
  {
    DataLinesAppend([r], rest);
    assert DataLines([r]) == [Line(r)];
  }

  lemma {:induction false} DataLinesOfDecodeLines(ls: seq<string>, inv: seq<Record>)
    requires NoneContains(ls, '\n')
    requires DecodeLines(ls) == Some(inv)
    ensures DataLines(inv) == ls
    ensures forall i :: 0 <= i < |inv| ==> CsvSafe(inv[i])
    decreases |ls|
  {
    if |ls| > 0 {
      var r := DecodeLine(ls[0]).value;
      var rest := DecodeLines(ls[1..]).value;
      assert inv == [r] + rest;
      LineOfDecodeLine(ls[0], r);
      DataLinesOfDecodeLines(ls[1..], rest);
      DataLinesCons(r, rest);
      assert ls == [ls[0]] + ls[1..];
    }
  }

  lemma Frame(lines: seq<string>)
    requires |lines| >= 2
    ensures lines == ([lines[0]] + lines[1..|lines| - 1]) + [lines[|lines| - 1]]
  {
  }

  lemma BodyUnbroken(lines: seq<string>)
    requires |lines| >= 2 && NoneContains(lines, '\n')
    ensures NoneContains(lines[1..|lines| - 1], '\n')
  {
    var body := lines[1..|lines| - 1];
    forall k | 0 <= k < |body|
      ensures '\n' !in body[k]
    {
      assert body[k] == lines[k + 1];
    }
  }

  /** Whatever text decodes is exactly the export of the decoded inventory. */
  lemma EncodeDecode(text: string, inv: seq<Record>)
    requires Decode(text) == Some(inv)
    ensures Encode(inv) == text
    ensures forall i :: 0 <= i < |inv| ==> CsvSafe(inv[i])
  {
    var lines := Split(text, '\n');
    var n := |lines|;
    var body := lines[1..n - 1];
    assert DecodeLines(body) == Some(inv);
    JoinSplit(text, '\n');
    BodyUnbroken(lines);
    DataLinesOfDecodeLines(body, inv);
    Frame(lines);
    calc {
      Encode(inv);
      { EncodeAsLines(inv); }
      Lines([Header] + DataLines(inv));
      Lines([Header] + body);
      { LinesAsJoin([Header] + body); }
      Join(([Header] + body) + [""], '\n');
      Join(lines, '\n');
      text;
    }
  }

  /** The decoder accepts a text exactly when it is the export of an inventory without separators in its SSIDs and BSSIDs. */
  lemma DecodeExactlyEncodings(text: string, inv: seq<Record>)
    ensures Decode(text) == Some(inv) <==>
      text == Encode(inv) && forall i :: 0 <= i < |inv| ==> CsvSafe(inv[i])
  {
    if Decode(text) == Some(inv) {
      EncodeDecode(text, inv);
    }
    if text == Encode(inv) && forall i :: 0 <= i < |inv| ==> CsvSafe(inv[i]) {
      DecodeEncode(inv);
    }
  }
}
