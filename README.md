# All Endpoint Data — a Dafny model of the query pipeline

This project models the query pipeline of the "All Endpoint Data" GQI data
source (class `CmData`). Given a front-end element, an organisational dimension
("System Type") and a value ("System Name"), the pipeline:

- discovers the collectors listed in the front end's table 700;
- translates the dimension into a partial-table filter;
- fetches each collector's endpoint table 2000 under that filter;
- turns the column-oriented reply into one `EndpointOverview` record per row, kept
  in a dictionary keyed by endpoint name;
- appends one output row per record to the `listGqiRows` accumulator, with the
  sentinel -1 shown as "N/A".

Any exception discards every row accumulated so far.

Modules, one file each:

- `Wrappers` (`wrappers.dfy`): `Option` and `Result`.
- `Text` (`text.dfy`): splitting on a separator, decimal digits, `Int32.TryParse`,
  and the text form of numbers (`Convert.ToString` / `Convert.ToDouble`). A
  `double` is modelled as a finite decimal `Decimal(mantissa, scale)`. One number
  has many such representations (`Decimal(-1, 0)` and `Decimal(-10, 1)`), so
  numbers are compared with `SameValue`, and `Convert.ToString` writes a number
  in lowest terms (`Normalize`), as .NET writes the shortest form of a double.
- `Tables` (`tables.dfy`): cell values (`HelperPartialSettings.CellValue`),
  column-oriented tables, and the null filtering `GetTable` applies to a reply.
- `Transport` (`transport.dfy`): the element address `dmaId/elementId`, the
  partial-table request, and the connection to the DataMiner system. The
  connection is a class `Dms` holding a fixed reply per request (`answer`) and
  the log of requests sent (`sent`). `FetchTable` is what `GetTable` returns.
- `Filters` (`filters.dfy`): `GetSystemTypeFilter`.
- `Endpoints` (`endpoints.dfy`): `EndpointOverview`, building a record from one
  row, the dictionary (keys kept in first-insertion order), and
  `ExtractCollectorData` as a fold over the rows.
- `Rows` (`rows.dfy`): `ParseStringValue`, `ParseDoubleValue`, and the eight-cell
  output row.
- `Query` (`query.dfy`): discovery, the collector loop, and a whole query as
  functions (`Collectors`, `LoopOver`, `QueryRun`). Also the class `CmData`,
  whose methods update its fields and the request log and are proved equal to
  those functions.

Exceptions are `Result` failures with a `Fault`: the transport threw, an index
was out of range, or a number failed to parse. `OnArgumentsProcessed` turns any
of them into an empty accumulator, as its `catch` does.

A query whose dimension is not one of the seven still runs collector discovery
first: `GetAllCollectors` is called (line 98) before the filter is computed and
checked (lines 100-104). Discovery therefore sends its request, and can fail,
even when the query is bound to return no rows. The model follows
the code (`Query.QueryUnknownFilter`).

## Model

All source cells refer to `EPM_Availability_All_Endpoints_1/EPM_Availability_All_Endpoints_1.cs`.

| member | source | states |
|---|---|---|
| Filters.SystemTypeFilter | EPM_Availability_All_Endpoints_1/EPM_Availability_All_Endpoints_1.cs:125-146 | For each of the seven dimensions the filter is `forceFullTable=true;fullFilter=(C==value)`, with C that dimension's column code 2010-2016. Every other dimension gives "", and only such a dimension does. |
| Filters.FilterEmbedsValue | EPM_Availability_All_Endpoints_1/EPM_Availability_All_Endpoints_1.cs:130-142 | The value is embedded verbatim between the `==` after the column code and the closing parenthesis. |
| Text.Split | EPM_Availability_All_Endpoints_1/EPM_Availability_All_Endpoints_1.cs:152 | `Split('/')` gives at least one part, and no part contains the separator. |
| Text.JoinSplit | EPM_Availability_All_Endpoints_1/EPM_Availability_All_Endpoints_1.cs:152 | Splitting an address on '/' loses nothing: joining the parts back with '/' gives the address. |
| Text.SplitWithoutSeparator | EPM_Availability_All_Endpoints_1/EPM_Availability_All_Endpoints_1.cs:152 | Text without the separator splits into itself alone. |
| Text.SplitAtSeparator | EPM_Availability_All_Endpoints_1/EPM_Availability_All_Endpoints_1.cs:152 | A separator after a separator-free prefix ends the first part; the rest splits on its own. |
| Text.ParseInt32 | EPM_Availability_All_Endpoints_1/EPM_Availability_All_Endpoints_1.cs:153 | `Int32.TryParse` accepts only values within the 32-bit signed range. |
| Text.Int32RoundTrip | EPM_Availability_All_Endpoints_1/EPM_Availability_All_Endpoints_1.cs:153 | An Int32 written as text is parsed back to itself. |
| Transport.AddressOf | EPM_Availability_All_Endpoints_1/EPM_Availability_All_Endpoints_1.cs:152-153 | An accepted address yields two ids in the Int32 range. |
| Transport.AddressNeedsSeparator | EPM_Availability_All_Endpoints_1/EPM_Availability_All_Endpoints_1.cs:152-153 | An address without '/' (fewer than two parts) is rejected. |
| Transport.AddressIgnoresExtraParts | EPM_Availability_All_Endpoints_1/EPM_Availability_All_Endpoints_1.cs:152-153 | Parts after the second are ignored: `a/b/rest` is read exactly as `a/b`. |
| Transport.AddressRoundTrip | EPM_Availability_All_Endpoints_1/EPM_Availability_All_Endpoints_1.cs:152-156 | The address written from two Int32 ids is accepted and gives back those ids. |
| Transport.RequestsOf | EPM_Availability_All_Endpoints_1/EPM_Availability_All_Endpoints_1.cs:152-157 | `GetTable` sends at most one request, and sends none exactly when the address is rejected. |
| Transport.Dms.SendMessage | EPM_Availability_All_Endpoints_1/EPM_Availability_All_Endpoints_1.cs:157 | Sending appends the request to the log and returns the system's reply to it. |
| Tables.Present | EPM_Availability_All_Endpoints_1/EPM_Availability_All_Endpoints_1.cs:162-163 | Dropping nulls keeps one element per non-null entry: x is kept iff Some(x) was present. |
| Tables.PresentOrder | EPM_Availability_All_Endpoints_1/EPM_Availability_All_Endpoints_1.cs:162-163 | Each non-null entry lands at the position given by the number of non-null entries before it, so order is kept. |
| Tables.PresentOfAllPresent | EPM_Availability_All_Endpoints_1/EPM_Availability_All_Endpoints_1.cs:162-163 | A list without nulls comes through unchanged. |
| Tables.CleanColumns | EPM_Availability_All_Endpoints_1/EPM_Availability_All_Endpoints_1.cs:159-169 | A null reply gives no columns. Otherwise there is one column per non-null column, in order, and each holds that column's non-null cells in order. |
| Transport.FetchTable | EPM_Availability_All_Endpoints_1/EPM_Availability_All_Endpoints_1.cs:148-174 | A rejected address gives an empty table. The result fails exactly when a request was sent and the transport threw. Otherwise it is the cleaned-up reply. |
| Query.CmData.GetTable | EPM_Availability_All_Endpoints_1/EPM_Availability_All_Endpoints_1.cs:148-174 | Returns `FetchTable` of the element, table and filters, and appends exactly `RequestsOf` to the request log. |
| Query.Collectors | EPM_Availability_All_Endpoints_1/EPM_Availability_All_Endpoints_1.cs:176-189 | Discovery fails exactly when fetching table 700 does. Otherwise it returns no collectors for a table without columns, else the first column's cells as text, in order. |
| Query.CmData.GetAllCollectors | EPM_Availability_All_Endpoints_1/EPM_Availability_All_Endpoints_1.cs:176-189 | Returns `Collectors` of the front end and logs only the table-700 request. |
| Tables.ToText | EPM_Availability_All_Endpoints_1/EPM_Availability_All_Endpoints_1.cs:218-224 | `Convert.ToString` gives "" for null and a text unchanged. A number gives non-empty text, which is "-1" exactly when the number is -1 in whatever number of decimal places. |
| Tables.ToDouble | EPM_Availability_All_Endpoints_1/EPM_Availability_All_Endpoints_1.cs:225-228 | `Convert.ToDouble` gives 0 for null and a number unchanged. The text "-1" reads as the sentinel -1, and the empty text is a format exception. |
| Tables.NumberTextRoundTrip | EPM_Availability_All_Endpoints_1/EPM_Availability_All_Endpoints_1.cs:225-228 | A number cell turned into text converts back to the same number. |
| Tables.NumberTextSameValue | EPM_Availability_All_Endpoints_1/EPM_Availability_All_Endpoints_1.cs:218 | Two numeric key cells give the same key exactly when they hold the same number, so the dictionary at line 231 holds one entry per number. |
| Text.Normalize | EPM_Availability_All_Endpoints_1/EPM_Availability_All_Endpoints_1.cs:218 | The lowest-terms form of a decimal has no trailing fractional zero and denotes the same number. |
| Text.NormalizeSameValue | EPM_Availability_All_Endpoints_1/EPM_Availability_All_Endpoints_1.cs:218 | Two decimals denote the same number exactly when their lowest-terms forms are equal. |
| Text.FormatParseRoundTrip | EPM_Availability_All_Endpoints_1/EPM_Availability_All_Endpoints_1.cs:225-228 | The text `Convert.ToString` writes for a number parses back to the number in lowest terms, which denotes the same number. |
| Text.FormatSameValue | EPM_Availability_All_Endpoints_1/EPM_Availability_All_Endpoints_1.cs:218-224 | Two numbers are written alike exactly when they are the same number. |
| Text.MinusOneText | EPM_Availability_All_Endpoints_1/EPM_Availability_All_Endpoints_1.cs:201-205 | A number is written "-1" exactly when it is -1, however many decimal places it carries; the text "-1" reads as -1. |
| Endpoints.BuildRecord | EPM_Availability_All_Endpoints_1/EPM_Availability_All_Endpoints_1.cs:218-228 | A row gives a record exactly when columns 1, 9, 10 and 16-19 reach the row and the four metric cells are numeric. The record takes Name from column 0, Ip from 1, CustomerName from 9, VendorName from 10, PacketLossRate from 18, Jitter from 16, Latency from 17 and Rtt from 19. |
| Endpoints.NarrowTableFails | EPM_Availability_All_Endpoints_1/EPM_Availability_All_Endpoints_1.cs:222-228 | A table with fewer than twenty columns yields no record. |
| Endpoints.Put | EPM_Availability_All_Endpoints_1/EPM_Availability_All_Endpoints_1.cs:231 | `endpointRows[key] = oltRow` sets that entry and keeps the dictionary well formed. An existing key keeps its place; a new key goes last. |
| Endpoints.Values | EPM_Availability_All_Endpoints_1/EPM_Availability_All_Endpoints_1.cs:240 | `Values` lists one value per key, in key order. |
| Endpoints.Accumulate | EPM_Availability_All_Endpoints_1/EPM_Availability_All_Endpoints_1.cs:216-232 | The dictionary after any prefix of the rows is well formed (distinct keys, one entry per key) and has at most one entry per row read. |
| Endpoints.Extract | EPM_Availability_All_Endpoints_1/EPM_Availability_All_Endpoints_1.cs:211-236 | The extracted dictionary is well formed, with at most one entry per row of column 0, and none for a table without columns. |
| Endpoints.AccumulateStep | EPM_Availability_All_Endpoints_1/EPM_Availability_All_Endpoints_1.cs:216-232 | One more row either puts its record under its key or ends the loop with that row's exception; after an exception nothing changes. |
| Endpoints.AccumulateStops | EPM_Availability_All_Endpoints_1/EPM_Availability_All_Endpoints_1.cs:216-232 | Once a row has thrown, later rows change nothing. |
| Endpoints.AccumulateSucceeds | EPM_Availability_All_Endpoints_1/EPM_Availability_All_Endpoints_1.cs:216-232 | The loop over the first n rows succeeds exactly when each of them yields a record. |
| Endpoints.AccumulateKeys | EPM_Availability_All_Endpoints_1/EPM_Availability_All_Endpoints_1.cs:216-232 | After n rows, the dictionary's keys are exactly the keys of those rows. |
| Endpoints.AccumulateLastWins | EPM_Availability_All_Endpoints_1/EPM_Availability_All_Endpoints_1.cs:216-232 | A key maps to the record of the last row carrying it. |
| Endpoints.ExtractSucceeds | EPM_Availability_All_Endpoints_1/EPM_Availability_All_Endpoints_1.cs:211-236 | A table with columns is extracted without an exception exactly when every row of column 0 can be read. |
| Endpoints.ExtractKeys | EPM_Availability_All_Endpoints_1/EPM_Availability_All_Endpoints_1.cs:213-235 | The dictionary's key set is the set of column-0 values, and `Values` lists one record per key. |
| Endpoints.ExtractLastWins | EPM_Availability_All_Endpoints_1/EPM_Availability_All_Endpoints_1.cs:216-232 | The record under a key is the one built from the last row carrying that key. |
| Query.CmData.ExtractCollectorData | EPM_Availability_All_Endpoints_1/EPM_Availability_All_Endpoints_1.cs:211-236 | The loop returns `Extract` of the table: empty for a table without columns, otherwise the row-by-row dictionary or the first row's exception. |
| Rows.ParseStringValue | EPM_Availability_All_Endpoints_1/EPM_Availability_All_Endpoints_1.cs:201-209 | "" and "-1" are shown as "N/A"; any other text is shown unchanged. The result is never "" or "-1", and is "N/A" exactly for "", "-1" and "N/A". |
| Rows.ParseStringValueIdempotent | EPM_Availability_All_Endpoints_1/EPM_Availability_All_Endpoints_1.cs:201-209 | Normalising a shown value again changes nothing. |
| Rows.ParseDoubleValue | EPM_Availability_All_Endpoints_1/EPM_Availability_All_Endpoints_1.cs:191-199 | A value is shown as "N/A" exactly when it equals -1. Any other value is shown rounded, with its own value and the given unit. |
| Rows.NumberShownNotAvailable | EPM_Availability_All_Endpoints_1/EPM_Availability_All_Endpoints_1.cs:223-224 | A customer or vendor cell holding a number is shown as "N/A" exactly when the number is -1, in whatever number of decimal places. |
| Rows.RowOf | EPM_Availability_All_Endpoints_1/EPM_Availability_All_Endpoints_1.cs:242-282 | Name and Ip pass through unchanged. Customer and Vendor names are shown through `ParseStringValue`, so never as "" or "-1". Each metric keeps its raw value and is shown through `ParseDoubleValue`, with "%" for packet loss and "ms" for the others. |
| Rows.RowsOfAppend | EPM_Availability_All_Endpoints_1/EPM_Availability_All_Endpoints_1.cs:240-285 | The rows of a record list followed by one more record are that list's rows plus that record's row. |
| Query.CmData.AddAllCableModems | EPM_Availability_All_Endpoints_1/EPM_Availability_All_Endpoints_1.cs:238-286 | Appends exactly one row per dictionary value, in `Values` order, and leaves the earlier rows unchanged. |
| Query.CollectorRows | EPM_Availability_All_Endpoints_1/EPM_Availability_All_Endpoints_1.cs:108-114 | One collector's rows exist exactly when fetching its table and extracting it both succeed, and there is one row per dictionary entry. A collector whose address is rejected gives no rows and no exception. |
| Query.CollectorStepCases | EPM_Availability_All_Endpoints_1/EPM_Availability_All_Endpoints_1.cs:108-114 | One collector sends its table request. It fails when the fetch or the extraction throws, and otherwise gives the rows of the extracted dictionary. |
| Query.CmData.AddCollectorRows | EPM_Availability_All_Endpoints_1/EPM_Availability_All_Endpoints_1.cs:108-114 | One pass of the loop body: logs that collector's request; on success appends its rows, otherwise reports the failure and leaves the rows unchanged. |
| Query.LoopOver | EPM_Availability_All_Endpoints_1/EPM_Availability_All_Endpoints_1.cs:106-115 | A loop over collectors that ends without an exception ran every collector's step without one. |
| Query.CollectorLoop | EPM_Availability_All_Endpoints_1/EPM_Availability_All_Endpoints_1.cs:106-115 | The collector loop ends without an exception exactly when every collector's rows can be built. |
| Query.LoopStep | EPM_Availability_All_Endpoints_1/EPM_Availability_All_Endpoints_1.cs:106-115 | One more collector extends the loop's requests and rows, unless the loop has already failed. |
| Query.LoopStops | EPM_Availability_All_Endpoints_1/EPM_Availability_All_Endpoints_1.cs:106-120 | After an exception, later collectors are never asked. |
| Query.LoopRequests | EPM_Availability_All_Endpoints_1/EPM_Availability_All_Endpoints_1.cs:106-115 | When the loop succeeds, each collector's request goes out once, in collector order. |
| Query.LoopAllOrNothing | EPM_Availability_All_Endpoints_1/EPM_Availability_All_Endpoints_1.cs:106-120 | The loop succeeds exactly when every collector does. Its rows are then every collector's rows concatenated in collector order. |
| Query.CmData.FetchFromCollectors | EPM_Availability_All_Endpoints_1/EPM_Availability_All_Endpoints_1.cs:106-115 | The `foreach` logs exactly the loop's requests. It reports failure exactly when the loop fails; otherwise it appends the loop's rows. |
| Query.QueryRun | EPM_Availability_All_Endpoints_1/EPM_Availability_All_Endpoints_1.cs:89-123 | The discovery request always goes out first. Rows come only after discovery succeeds, and non-empty rows only for one of the seven dimensions. |
| Query.QueryRunCases | EPM_Availability_All_Endpoints_1/EPM_Availability_All_Endpoints_1.cs:89-123 | A query ends in one of three ways. Discovery throws: only its request went out. The filter is empty: no rows, after discovery. Otherwise: discovery's request followed by the loop's requests, and the loop's result. |
| Query.QueryOutputAllOrNothing | EPM_Availability_All_Endpoints_1/EPM_Availability_All_Endpoints_1.cs:89-123 | A query's rows are every collector's rows in collector order when discovery, the filter and every collector succeed, and none otherwise. |
| Query.QueryUnknownFilter | EPM_Availability_All_Endpoints_1/EPM_Availability_All_Endpoints_1.cs:98-104 | An unrecognised dimension gives no rows, yet the discovery request has been sent (exactly one request for a valid address). |
| Query.QueryNoCollectors | EPM_Availability_All_Endpoints_1/EPM_Availability_All_Endpoints_1.cs:106-115 | A front end without collectors gives no rows. |
| Query.CmData.GetSystemTypeFilter | EPM_Availability_All_Endpoints_1/EPM_Availability_All_Endpoints_1.cs:125-146 | The filter of the stored dimension and value: the full filter on that dimension's column for one of the seven dimensions, and "" exactly for any other. |
| Query.CmData.constructor | EPM_Availability_All_Endpoints_1/EPM_Availability_All_Endpoints_1.cs:37-47 | All text fields start empty, and the accumulator and collector list start as empty lists. |
| Query.CmData.OnArgumentsProcessed | EPM_Availability_All_Endpoints_1/EPM_Availability_All_Endpoints_1.cs:89-123 | Stores the three arguments. The accumulator ends as `QueryRun`'s output, so it is empty after any exception. The request log grows by exactly the query's requests. `allCollectors` and `systemTypeFilter` are updated only when discovery succeeds. |

## Left out

- GQI host plumbing is not modelled: `OnInit`, `GetInputArguments`, `GetColumns`, `GetNextPage`, the argument objects and `GetArgumentValue`. These are declarations for the host engine; the three argument values are parameters of `OnArgumentsProcessed`.
- The DataMiner connection (`GQIDMS.SendMessage`, `GetPartialTableMessage`, `ParameterChangeEventMessage`) is foreign code. It is modelled as a fixed reply per request, `Dms.answer`. A reply that is not a `ParameterChangeEventMessage`, and so fails the cast, is a thrown reply (`Thrown`).
- Rows.ParseDoubleValue: the non-sentinel text `Math.Round(value, 2) + " " + unit` is kept abstract as `Rounded(value, unit)`. Rounding and the culture-dependent formatting of doubles are floating-point numerics.
- Text.ParseInt32: `Int32.TryParse` is simplified to an optional sign followed by decimal digits in the Int32 range. It does not model leading or trailing white space, culture-specific signs or thousands separators.
- Text.ParseDouble: `Convert.ToDouble` of text is simplified to an optional sign, digits, and optionally a point followed by digits. Exponents, white space, culture-specific separators, "Infinity"/"NaN", and the forms ".5" and "5." are reported as format errors. The decimal it returns keeps the number of decimal places written ("1.0" gives `Decimal(10, 1)`), so a record can hold a number in a representation other than its lowest terms. Every comparison the source makes on numbers (the -1 sentinel, the dictionary keys) is stated up to `SameValue`.
- Text.FormatDecimal: `Convert.ToString` of a number writes it in lowest terms in plain decimal notation. The exponent notation .NET uses for very large or very small doubles is not modelled.
- Doubles are modelled as finite decimals: rounding to binary, infinities, NaN and negative zero are out.
- Endpoints.Values: .NET does not guarantee the enumeration order of `Dictionary.Values`. The model uses first-insertion order of keys, which is what a dictionary without removals yields.
- A non-null reply cell whose `CellValue` is null makes line 166 throw a `NullReferenceException`. This is not modelled: a cell is either null (dropped) or has a value.
- Which exception type is thrown is not observable, because the `catch` at line 117 catches all of them. `Fault` only distinguishes the kinds for readability.
- The unused `BackEndHelper` class, the unused `iterator` field, and the `DisplayValue`/`DisplayType` fields of `HelperPartialSettings` are not modelled, because nothing reads them.
- Output cells are modelled as typed fields of `Row`, not as the host's `GQICell` objects.
