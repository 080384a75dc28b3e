# wifite scanner core in Dafny

A model of the scan-aggregate-render core of the `wifite.py` Wi-Fi scanner:

- how one raw scan entry becomes a seven-field network record (channel from frequency, Open/Secured security, None/WPA/WPA2/Unknown encryption);
- how the loop filters each snapshot by signal strength and appends records not yet listed to the inventory;
- how the inventory is projected onto the ranked live table;
- how it is written as CSV text.

Everything is immutable datatypes and pure functions over `seq`. The one exception is `Inventory.ScanLoop`, which restates the source's nested loops imperatively and is proved equal to the functional fold.

Modules (one file each):

- `Maybe` — `Option`.
- `Decimal` — Python's `str(int)`, plus a parser that reads back exactly what `str` writes.
- `Text` — join and split at a separator, and line-terminated text.
- `Network` — AKM tags, the raw observation, the record, channel derivation, classification, normalisation, display values.
- `Inventory` — the signal filter, the merge, one loop cycle, and the fold over a sequence of snapshots.
- `Table` — table rows.
- `Csv` — the CSV encoding, and a decoder used to state the round trip.

Records are typed: `signal`, `frequency` and `channel` are integers, and security and encryption are enumerations. The source keeps each record as a dictionary whose Frequency and Channel are already strings. `Network.DisplayInjective` proves two records are equal exactly when their displayed values are equal. So datatype equality is the source's whole-dictionary equality in `network not in networks`.

Three behaviours of `wifite.py` are modelled as written:

- The channel is `int()` of the quotient, which truncates toward zero, not rounding. For example, 2403 MHz gives channel 0, while rounding would give -1.
- Duplicates are detected on the whole record, not on the BSSID. Nothing is overwritten in place. An access point seen again with a different signal is listed again (`Inventory.SameBssidKeptTwice`).
- An empty AKM tag list is not classified as Secured/Unknown. The source indexes `akm[0]`, which fails on an empty list, so normalisation requires a non-empty list.

## Model

| member | source | states |
|---|---|---|
| Decimal.IntToString | wifite.py:63-64 | Python's `str` on an int: a non-empty string of digits and an optional minus sign; what it determines is stated by IntRoundTrip and IntToStringInjective |
| Decimal.IntRoundTrip | wifite.py:63-64 | the decimal rendering `str` gives an integer reads back as that integer |
| Decimal.StringRoundTrip | wifite.py:63-64 | every string the integer parser accepts is the rendering of the value it reads, so rendering and parsing are inverse |
| Decimal.IntToStringInjective | wifite.py:64 | distinct integers render as distinct strings, in both directions |
| Text.SplitJoin | wifite.py:106-107 | splitting comma-joined fields at ',' gives the fields back when none contains ',' |
| Text.SplitLines | wifite.py:103-108 | splitting '\n'-terminated lines at '\n' gives the lines followed by one empty piece |
| Network.TruncDiv5 | wifite.py:56 | Python's int() of a quotient by 5: the quotient has the dividend's sign and is truncated toward zero |
| Network.Channel | wifite.py:56 | channel counted in 5 MHz steps from 2407 MHz below 2500 MHz and from 5000 MHz otherwise, truncated toward zero |
| Network.ChannelOfCentreFrequency | wifite.py:56 | the centre frequency of channel k maps back to k in both bands |
| Network.ChannelExamples | wifite.py:56 | 2412 gives 1, 2484 gives 15, 5180 gives 36, 2400 gives -1 and 2403 gives 0 |
| Network.SecurityOf | wifite.py:57 | Open exactly when the first AKM tag is the no-authentication tag; defined only for a non-empty tag list |
| Network.EncryptionOf | wifite.py:32-41 | None if the no-auth tag is present, else WPA if WPA is present, else WPA2 if WPA2 is present, else Unknown; each as an if-and-only-if |
| Network.EncryptionDependsOnTagSetOnly | wifite.py:34-38 | the encryption classification depends only on which tags occur, not on their order or repetition |
| Network.PskOnlyIsUnknown | wifite.py:32-41 | a tag list holding only WPA-PSK/WPA2-PSK tags is classified Secured with Unknown encryption |
| Network.Normalize | wifite.py:52-67 | the record keeps SSID, BSSID, signal and frequency, derives the channel, is Open iff the first tag is no-auth, is Unknown iff none of the three recognised tags occurs, and takes its security and encryption from SecurityOf and EncryptionOf, so the None > WPA > WPA2 > Unknown priority of wifite.py:58 and 32-41 applies |
| Network.OpenImpliesUnencrypted | wifite.py:57-58 | for every tag list, an Open record has encryption None; and whenever the no-auth tag occurs but is not first, the record is Secured with encryption None |
| Network.Display | wifite.py:59-67 | the seven shown values of a record, in column order; DisplayInjective shows they determine the record |
| Network.DisplayInjective | wifite.py:59-67 | two records are equal exactly when their seven displayed values are equal |
| Inventory.StrongOnly | wifite.py:134 | the filter never lengthens a snapshot and drops a weak first record; which records it keeps is stated by StrongOnlyMembers and its order by StrongOnlyAppend |
| Inventory.StrongOnlyMembers | wifite.py:134 | a record survives the filter exactly when it is in the snapshot and its signal is above -80 |
| Inventory.StrongOnlyAppend | wifite.py:134 | the filter distributes over concatenation, so it keeps snapshot order |
| Inventory.StrongOnlyBoundary | wifite.py:134 | a record at -80 is dropped and one at -79 is kept |
| Inventory.StrongOnlyIdentity | wifite.py:134 | the filter leaves a snapshot unchanged exactly when all its records are strong |
| Inventory.Merge | wifite.py:137-139 | the old inventory is a prefix of the result, so nothing is removed or moved, and it grows by at most the number of new records |
| Inventory.MergeMembers | wifite.py:137-139 | the result holds exactly the old records and the merged ones |
| Inventory.MergeNoDuplicates | wifite.py:137-139 | a duplicate-free inventory stays duplicate-free, even when the snapshot repeats a record |
| Inventory.MergePresent | wifite.py:137-139 | merging records that are all already listed changes nothing |
| Inventory.MergeIdempotent | wifite.py:137-139 | merging the same snapshot twice equals merging it once |
| Inventory.MergeIsFirstOccurrences | wifite.py:137-139 | the merge appends, in order, the first occurrence of each record not yet listed |
| Inventory.SameBssidKeptTwice | wifite.py:138 | equality is on the whole record: the same BSSID with another signal is appended as a second entry |
| Inventory.Cycle | wifite.py:133-139 | one loop pass keeps the old inventory as a prefix and adds at most one record per scan entry |
| Inventory.Run | wifite.py:128-141 | each cycle keeps the previous inventory as a prefix; its members are stated by RunMembership |
| Inventory.StrongOnlyPrefixReached | wifite.py:134-139 | every prefix of the filtered snapshot is the filter of some prefix of the raw snapshot |
| Inventory.InterruptedCycle | wifite.py:137-147 | a Ctrl+C inside the merge leaves exactly the inventory of a complete run whose last scan is cut short |
| Inventory.RunNoDuplicates | wifite.py:128-141 | the inventory after any number of loop cycles holds no two equal records |
| Inventory.RunMembership | wifite.py:128-141 | a record is in the inventory exactly when some snapshot produced it with signal above -80 |
| Inventory.RunPrefixStable | wifite.py:128-141 | the inventory after fewer cycles is a prefix of the inventory after more, so no record moves or disappears |
| Inventory.ScanLoop | wifite.py:128-141 | the source's nested loop (per snapshot, append each strong record not yet listed) computes the fold, with no duplicates and only strong records |
| Table.Rows | wifite.py:81-91 | one row per inventory record, in order, each with 8 cells: rank i+1, then the record's seven displayed values |
| Table.RankReadsBack | wifite.py:83 | the rank cell of row i reads back as i+1 |
| Table.RowsInjective | wifite.py:81-91 | the table determines the inventory: different inventories render different rows |
| Table.RowsPrefixStable | wifite.py:81-91 | extending the inventory keeps every existing row unchanged |
| Table.RunRowsStable | wifite.py:141 | across loop cycles, row i of an earlier table is row i of every later table |
| Csv.Line | wifite.py:105-107 | a data line is the record's seven shown values joined by ','; when no SSID or BSSID holds a comma, splitting it at ',' gives those values back |
| Csv.DataLinesAppend | wifite.py:104-107 | the data lines of a concatenated inventory are the data lines of each part, one after the other |
| Csv.Encode | wifite.py:103-108 | the text starts with the header line; an empty inventory gives the header line only |
| Csv.EncodeAppend | wifite.py:104-108 | one more record adds exactly its comma-joined line and '\n' at the end |
| Csv.LineIsRowWithoutRank | wifite.py:105-107 | a CSV data line is the table row of the same record without its rank, joined by ',' |
| Csv.DecodeEncode | wifite.py:103-108 | when no SSID or BSSID contains ',' or '\n', reading the exported text back gives the inventory in order |
| Csv.EncodeDecode | wifite.py:103-108 | any text that reads back is exactly the export of what it reads as, and those records hold no separators |
| Csv.DecodeExactlyEncodings | wifite.py:103-108 | a text decodes to an inventory if and only if it is that inventory's export and no SSID or BSSID holds a separator |
| Csv.CommaInSsidBreaksRoundTrip | wifite.py:106-107 | there is no escaping: when the SSID holds exactly one comma and the BSSID none, the data line splits into eight fields (the two halves of the SSID, then the other six values) and does not decode |

## Left out

- Radio scanning (`PyWiFi`, `interfaces()[0]`, `scan`, `scan_results`, the 2-second settle; wifite.py:45-49) is a hardware call. The model takes each snapshot of raw observations as input. A missing interface, which makes the source fail, is not modelled.
- The scanning library's AKM constants are not part of this model. The tags are an enumeration of its six kinds, and only their distinctness matters.
- Terminal rendering (`Console`, `Live`, `Spinner`, `Table` styling; wifite.py:4-11, 71-79, 131, 141) is left out. The table is a sequence of rows of strings plus the column titles.
- The `while True` loop ends only on Ctrl+C (`KeyboardInterrupt`), with one-second pauses (wifite.py:130-147). The model runs one cycle per element of a finite sequence of snapshots, and the interrupt is the end of that sequence. A Ctrl+C can also stop the loop part-way through merging a snapshot (wifite.py:137-139); `Inventory.InterruptedCycle` proves that this partly merged list is the inventory of a run whose last scan is cut short, so the abstraction covers that case too.
- The export prompts, the file name with its `.csv` extension, opening and writing the file, the JSON branch (`json.dump`) and the confirmation message (wifite.py:94-102, 109-115, 145-147) are I/O or a library serialiser. Only the CSV text is modelled.
- `center_text` and the ASCII banner (wifite.py:13-30, 117-126) are cosmetic and depend on the terminal size.
- Network.TruncDiv5: the source divides as floating point and then truncates. The model truncates the exact quotient. The two agree unless the frequency is so large (beyond about 2^50) that the float quotient rounds across an integer.
- Network.Normalize: requires a non-empty tag list. The source raises an uncaught IndexError there, which ends the program, and that path is not modelled.
- The CSV decoder has no counterpart in the source. It exists only to state what the written text determines.
