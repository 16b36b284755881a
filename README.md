# DHCP trace analyzer: a Dafny model

`dhcp.py` reads a packet capture and keeps one record per DHCP packet. The
record holds the time, the source and destination MAC, the message type and
two addresses: the requested client IP and the server identifier. The script
then summarises these records and prints three kinds of anomaly. This project
models that pipeline once the capture, plotting and file libraries are
removed:

- **Records and Extraction** (`records.dfy`, `extraction.dfy`): a decoded
  packet has an optional link layer and an optional DHCP layer. The DHCP
  layer has three optional options: Message Type (option 53), Requested IP
  Address (option 50) and Server Identifier (option 54), as defined in
  sections 9.6, 9.1 and 9.7 of RFC 2132.
  - The capture loop is the method `Extract`. For each packet it builds the
    record step by step, as the script does. It is proved equal to the
    specification function `ExtractAll`.
  - Absent fields become the script's placeholders: `"unknown"` for a MAC
    or the type, and `"0.0.0.0"` for an IP.
- **MessageTypes** (`message_types.dfy`): the script's table maps `"1"`…`"6"`
  to DISCOVER, OFFER, REQUEST, DECLINE, ACK and NAK. Every other raw value
  becomes `"UNKNOWN_"` followed by that value verbatim. This includes
  RELEASE (7) and INFORM (8) of RFC 2132.
- **Aggregation** (`aggregation.dfy`) builds these views:
  - type counts in `Counter` order, and their `most_common()` ranking;
  - per-MAC counts in `unique()` order;
  - the distinct client and server addresses;
  - the `value_counts().head(5)` bars, labelled with the first 8 characters
    of each MAC;
  - per-minute activity. Times are whole seconds, and a minute starts at
    `t - t % 60`.
- **Anomalies** (`anomalies.dfy`): the three rules, in the order the script
  reports them:
  - a MAC with more than 5 packets;
  - any type outside {DISCOVER, REQUEST, ACK, OFFER};
  - the presence of any client address other than `"0.0.0.0"`.
- **Counting** (`counting.dfy`): the generic counting these views share.
  - `Distinct` lists values in first-seen order, like `Counter` keys and
    `unique()`.
  - `Tally` pairs each value with its count.
  - `SortByCount` is a stable sort by descending count. It matches
    `most_common()`, which is Python's stable `sorted(..., reverse=True)`.

Modelling choices:

- Message types are plain strings, as in the script. The resolver never
  produces the placeholder `"unknown"`, so the placeholder stays distinct
  from every resolved type.
- The per-MAC counts exclude no MAC: packets without a link layer are
  counted under `"unknown"`.
- The high-volume findings follow `value_counts()` order (descending count).
- The unusual-type and lease rules read the event rows (dhcp.py:130 and
  dhcp.py:134). `LeaseExact` proves the lease rule equivalent to "the client
  list is non-empty".

A placeholder means "absent" only when a present field does not itself hold
the placeholder text. For example, a Requested IP option whose value is
`"0.0.0.0"` also yields `"0.0.0.0"`. `EventDefaults` states the exact
behaviour and gives the "if and only if" form under that proviso.

## Model

| member | source | states |
|---|---|---|
| `MessageTypes.Resolve` | dhcp.py:35-45 | "1".."6" map to DISCOVER, OFFER, REQUEST, DECLINE, ACK, NAK; any other string (including "7", "8", "" and non-numeric text) maps to "UNKNOWN_" + the string; the result is never the placeholder "unknown" |
| `MessageTypes.ResolveRoundTrip` | dhcp.py:37-45 | the raw option value can be recovered from its label, so the fallback keeps the code verbatim |
| `MessageTypes.ResolveInjective` | dhcp.py:37-45 | two different raw values never get the same label |
| `Extraction.Extract` | dhcp.py:21-53 | the capture loop, which builds each record from placeholders and overwrites the fields whose options are present, returns exactly `ExtractAll(cap)` |
| `Extraction.ExtractAll` | dhcp.py:23-53 | a capture yields at most as many events as it has packets |
| `Extraction.DhcpPackets` | dhcp.py:23-24 | the packets kept are exactly the capture's packets that have a DHCP layer |
| `Extraction.ExtractIsFilterMap` | dhcp.py:23-53 | the events are exactly the records of the packets that have a DHCP layer, one each, in capture order |
| `Extraction.ExtractAppend` | dhcp.py:23-53 | extraction distributes over concatenated captures, so input order is kept |
| `Extraction.ExtractSingle` | dhcp.py:23-24 | one packet yields one event if and only if it has a DHCP layer, and none otherwise |
| `Extraction.EventDefaults` | dhcp.py:25-51 | in the record `EventOf` builds, MACs are "unknown" without a link layer and copied otherwise; type is "unknown" if and only if the Message Type option is absent; client and server IP are "0.0.0.0" when their option is absent and the option value otherwise |
| `Counting.Distinct` | dhcp.py:74 | the distinct values, each once, exactly those occurring |
| `Counting.DistinctFirstSeen` | dhcp.py:74 | the distinct values are listed in order of first occurrence |
| `Counting.TallyFacts` | dhcp.py:68 | the count table lists each value once with its exact count, in first-seen order, and the counts sum to the input length |
| `Counting.SortByCountFacts` | dhcp.py:69 | sorting keeps the same entries and keys, gives non-increasing counts, and keeps entries of equal count in their original order |
| `Aggregation.TypeCountsExact` | dhcp.py:68 | in `TypeCounts`, every occurring type appears once with the number of events of that type, and the counts sum to the number of events |
| `Aggregation.MostCommonRanking` | dhcp.py:68-69 | the most-common listing `MostCommon` is a permutation of the type counts with each type once, has non-increasing counts, and orders equal counts by first appearance |
| `Aggregation.MacCountsExact` | dhcp.py:74-76 | in `MacCounts`, every source MAC appears once with the number of events it sent, and the counts sum to the number of events |
| `Aggregation.ValueCountsEntries` | dhcp.py:98 | `ValueCounts` (`value_counts()`) lists every source MAC once with its exact count |
| `Aggregation.TopMacsShape` | dhcp.py:98-99 | the top view `TopMacs` has min(5, number of MACs) entries in non-increasing count order |
| `Aggregation.TopMacsEntries` | dhcp.py:98-99 | each entry of the top view is a distinct source MAC with its exact count |
| `Aggregation.TopMacsDominate` | dhcp.py:98 | a MAC left out of the top view has no larger count than any MAC in it |
| `Aggregation.Label` | dhcp.py:100 | the label is the first min(8, length) characters of the MAC |
| `Aggregation.TopMacBarsExact` | dhcp.py:98-100 | the chart data `TopMacBars` has min(5, number of MACs) bars with non-increasing heights; bar i belongs to a distinct source MAC and shows its 8-character label and its exact event count; no MAC without a bar has more events than any MAC with one |
| `Aggregation.AddressSetsExact` | dhcp.py:80-81 | the client (server) list `Clients` (`Servers`) holds, once each, exactly the client (server) addresses that occur other than "0.0.0.0"; "0.0.0.0" is never in either |
| `Aggregation.ClientsExample` | dhcp.py:80 | client addresses "0.0.0.0", "10.0.0.5", "10.0.0.5", "0.0.0.0" give the list ["10.0.0.5"] |
| `Aggregation.MinuteStart` | dhcp.py:106 | a time falls in the minute starting at `s`, with `s <= t < s + 60` and `s % 60 == 0`; that start is unique |
| `Aggregation.TimeSeriesKeys` | dhcp.py:106-107 | the series keys are the distinct minute starts, each once, in ascending order |
| `Aggregation.TimeSeriesExact` | dhcp.py:105-107 | `TimeSeries` has one entry per minute holding events, in strictly increasing order, each counting the events of that minute; the counts sum to the number of events |
| `Aggregation.EmptyViews` | dhcp.py:68-107 | with no events every view is empty |
| `Anomalies.HighVolumeFindings` | dhcp.py:125-127 | every finding is built from a table entry with count above 5 and carries that count and the 8-character label; every such entry gets a finding (order: `HighVolumeOrder`) |
| `Anomalies.HighVolumeOrder` | dhcp.py:125-127 | a table sorted by descending count, as `value_counts()` is, yields its high-volume findings by descending count |
| `Anomalies.HighVolumeDistinct` | dhcp.py:125-127 | a table with unique MACs yields at most one finding per MAC |
| `Anomalies.HighVolumeExact` | dhcp.py:125-127 | a MAC gets a high-volume finding if and only if its count is greater than 5; each finding carries its MAC's exact count and label, and no MAC gets two |
| `Anomalies.HighVolumeBoundary` | dhcp.py:125-127 | if all events come from one MAC, 5 events give no finding and 6 or more give exactly one, carrying the event count |
| `Anomalies.UnusualFindingExact` | dhcp.py:130-132 | the unusual-type part holds one finding if and only if some type is non-standard; that finding lists exactly the non-standard types that occur, each once |
| `Anomalies.UnusualExact` | dhcp.py:130-132 | an unusual-type finding appears, exactly once, if and only if some event type is outside {DISCOVER, REQUEST, ACK, OFFER} ("unknown" and UNKNOWN_ labels included); it lists exactly those types, each once |
| `Anomalies.LeaseFindingExact` | dhcp.py:134-135 | the lease part holds one finding if and only if some client address is not "0.0.0.0", that is, if and only if the client list is non-empty |
| `Anomalies.LeaseExact` | dhcp.py:134-135 | the lease finding appears, at most once, if and only if some event carries a client address other than "0.0.0.0" |
| `Anomalies.DetectLayout` | dhcp.py:124-135 | `Detect` lists findings in report order: the high-volume findings, by descending count, then at most one unusual-type finding, then at most one lease finding |
| `Anomalies.DetectEmpty` | dhcp.py:124-135 | no events give no findings |

## Left out

- Opening, iterating and closing the capture with pyshark, and the asyncio event-loop setup (dhcp.py:1-17, 55): foreign I/O. Packets are an input sequence of records with optional fields.
- The figure (dhcp.py:88-115): rendering. Only the data each chart consumes is modelled: type counts, top-5 bars and the per-minute series.
- Writing `dhcp_data.csv` (dhcp.py:118): file I/O. The exported table has one row per event, in capture order, plus a `min` column holding `MinuteStart(time)` (`Starts`).
- `pd.to_datetime` and sub-second times (dhcp.py:105): capture times are whole seconds.
- Printing, and the `exit()` on an empty capture (dhcp.py:59-61): console output and process control. `EmptyViews` and `DetectEmpty` state what the views and findings are for no events.
- Tie order of `value_counts()` (dhcp.py:98, 125): pandas does not fix it. The model sorts with the same stable sort as `most_common()` but proves no order among MACs with equal counts; between MACs with different counts, the descending order is proved (`TopMacsShape`, `HighVolumeOrder`, `DetectLayout`).
