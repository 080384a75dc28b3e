/**
  Observation normalisation (wifite.py `scan_wifi` and `get_encryption_type`):
  a raw scan entry becomes a seven-field network record with a derived
  channel and a security and encryption classification.
 */
module Network {
  import opened Decimal

  /** The authentication/key-management tags the scanning library reports per network. */
  datatype Akm = AkmNone | AkmWpa | AkmWpaPsk | AkmWpa2 | AkmWpa2Psk | AkmUnknown

  /** One entry of a scan result, as the scanning library hands it over. */
  datatype RawObservation = RawObservation(
    ssid: string,
    bssid: string,
    signal: int,
    freq: int,
    akm: seq<Akm>)

  datatype Security = Open | Secured

  /** `Unencrypted` is the classification the scanner shows as "None". */
  datatype Encryption = Unencrypted | Wpa | Wpa2 | Unknown

  /** The normalised record the inventory holds: SSID, BSSID, signal, frequency, channel, security, encryption. */
  datatype Record = Record(
    ssid: string,
    bssid: string,
    signal: int,
    frequency: int,
    channel: int,
    security: Security,
    encryption: Encryption)

  function Abs(x: int): (a: nat) {
    if x < 0 then -x else x
  }

  /**
    Python's `int(a / 5)`: the quotient truncated toward zero (unlike
    Dafny's `/`, which rounds toward negative infinity for a negative
    dividend).
   */
  function TruncDiv5(a: int): (q: int)
    ensures a >= 0 ==> q >= 0
    ensures a <= 0 ==> q <= 0
    ensures Abs(q) * 5 <= Abs(a) < Abs(q) * 5 + 5
  {
    if a >= 0 then a / 5 else -((-a) / 5)
  }

  /** The frequency the channel numbering of the band containing `freq` counts from. */
  function BandBase(freq: int): (base: int) {
    if freq < 2500 then 2407 else 5000
  }

  /** The channel number derived from a frequency in MHz (wifite.py:56). */
  function Channel(freq: int): (ch: int)
    ensures freq - BandBase(freq) >= 0 ==> ch >= 0
    ensures freq - BandBase(freq) <= 0 ==> ch <= 0
    ensures Abs(ch) * 5 <= Abs(freq - BandBase(freq)) < Abs(ch) * 5 + 5
  {
    if freq < 2500 then TruncDiv5(freq - 2407) else TruncDiv5(freq - 5000)
  }

  /** The centre frequency of every channel maps back to that channel, in both bands. */
  lemma ChannelOfCentreFrequency(k: int)
    ensures 2407 + 5 * k < 2500 ==> Channel(2407 + 5 * k) == k
    ensures 5000 + 5 * k >= 2500 ==> Channel(5000 + 5 * k) == k
  {
  }

  /** Frequencies below the band base truncate toward zero, not downward. */
  lemma ChannelExamples()
    ensures Channel(2412) == 1 && Channel(2484) == 15 && Channel(5180) == 36
    ensures Channel(2400) == -1 && Channel(2403) == 0
  {
  }

  /** Open exactly when the first tag is the no-authentication tag. */
  function SecurityOf(akm: seq<Akm>): (s: Security)
    requires |akm| > 0
    ensures s == Open <==> akm[0] == AkmNone
  {
    if akm[0] == AkmNone then Open else Secured
  }

  /** The first of no-authentication, WPA, WPA2 present among the tags (wifite.py:32-41). */
  function EncryptionOf(akm: seq<Akm>): (e: Encryption)
    ensures e == Unencrypted <==> AkmNone in akm
    ensures e == Wpa <==> AkmNone !in akm && AkmWpa in akm
    ensures e == Wpa2 <==> AkmNone !in akm && AkmWpa !in akm && AkmWpa2 in akm
    ensures e == Unknown <==> AkmNone !in akm && AkmWpa !in akm && AkmWpa2 !in akm
  {
    if AkmNone in akm then Unencrypted
    else if AkmWpa in akm then Wpa
    else if AkmWpa2 in akm then Wpa2
    else Unknown
  }

  /** The classification looks only at which tags occur, not at their order or repetition. */
  lemma EncryptionDependsOnTagSetOnly(a: seq<Akm>, b: seq<Akm>)
    requires forall t :: t in a <==> t in b
    ensures EncryptionOf(a) == EncryptionOf(b)
  {
  }

  /** Pre-shared-key tags are not among the recognised ones: a PSK-only list is Unknown. */
  lemma PskOnlyIsUnknown(akm: seq<Akm>)
    requires forall k :: 0 <= k < |akm| ==> akm[k] == AkmWpaPsk || akm[k] == AkmWpa2Psk
    ensures EncryptionOf(akm) == Unknown
    ensures |akm| > 0 ==> SecurityOf(akm) == Secured
  {
  }

  /** The record for one raw scan entry (wifite.py:52-67). The source indexes the first tag, so the tag list must not be empty. */
  function Normalize(o: RawObservation): (r: Record)
    requires |o.akm| > 0
    ensures r.ssid == o.ssid && r.bssid == o.bssid && r.signal == o.signal && r.frequency == o.freq
    ensures r.channel == Channel(o.freq)
    ensures r.security == Open <==> o.akm[0] == AkmNone
    ensures r.encryption == Unknown <==> AkmNone !in o.akm && AkmWpa !in o.akm && AkmWpa2 !in o.akm
    ensures r.security == SecurityOf(o.akm) && r.encryption == EncryptionOf(o.akm)
  {
    Record(o.ssid, o.bssid, o.signal, o.freq, Channel(o.freq), SecurityOf(o.akm), EncryptionOf(o.akm))
  }

  /**
    An open network is always classified unencrypted; the converse fails:
    a no-authentication tag that is not first gives a secured network with
    encryption None.
   */
  lemma OpenImpliesUnencrypted(o: RawObservation)
    requires |o.akm| > 0
    ensures Normalize(o).security == Open ==> Normalize(o).encryption == Unencrypted
    ensures o.akm[0] != AkmNone && AkmNone in o.akm ==>
      Normalize(o).security == Secured && Normalize(o).encryption == Unencrypted
  {
    if Normalize(o).security == Open {
      assert o.akm[0] in o.akm;
    }
  }

  function SecurityName(s: Security): (name: string) {
    match s
    case Open => "Open"
    case Secured => "Secured"
  }

  function EncryptionName(e: Encryption): (name: string) {
    match e
    case Unencrypted => "None"
    case Wpa => "WPA"
    case Wpa2 => "WPA2"
    case Unknown => "Unknown"
  }

  /** The frequency as the scanner shows it: "<f> MHz". */
  function FrequencyText(f: int): (text: string) {
    IntToString(f) + " MHz"
  }

  /**
    The seven values of a record as they are shown in the table and written
    to the CSV file, in the fixed column order.
   */
  function Display(r: Record): (fields: seq<string>)
    ensures |fields| == 7
  {
    [r.ssid, r.bssid, IntToString(r.signal), FrequencyText(r.frequency),
     IntToString(r.channel), SecurityName(r.security), EncryptionName(r.encryption)]
  }

  lemma FrequencyTextInjective(a: int, b: int)
    ensures FrequencyText(a) == FrequencyText(b) <==> a == b
  {
    if FrequencyText(a) == FrequencyText(b) {
      var sa, sb := IntToString(a), IntToString(b);
      assert |sa| == |sb|;
      assert sa == FrequencyText(a)[..|sa|];
      assert sb == FrequencyText(b)[..|sb|];
      IntToStringInjective(a, b);
    }
  }

  /**
    Two records are equal exactly when their displayed values are. The
    source keeps records as dictionaries of these values and compares whole
    dictionaries, so record equality here is the source's equality.
   */
  lemma DisplayInjective(a: Record, b: Record)
    ensures Display(a) == Display(b) <==> a == b
  {
    if Display(a) == Display(b) {
      assert Display(a)[2] == Display(b)[2];
      assert Display(a)[3] == Display(b)[3];
      assert Display(a)[4] == Display(b)[4];
      IntToStringInjective(a.signal, b.signal);
      FrequencyTextInjective(a.frequency, b.frequency);
      IntToStringInjective(a.channel, b.channel);
    }
  }
}
