# Firebird engine core: record-source operators, Int128 and expression nodes

A Dafny model of a slice of the Firebird SQL server. The model covers four areas.

- **Record-source operators.** These are the run-time operators a query plan is built from:
  - the "skip N rows" filter (`SkipRowsStream`);
  - the scan of a virtual monitoring table (`VirtualTableScan`);
  - the scan driven by a bitmap of record ids (`BitmapTableScan`);
  - the `RDB$RANGES.NUMBERS` system procedure's result set (`RangesPackage`).

  Each operator is a class whose fields are its per-request state. The child operator a filter reads
  from is an `InputStream` class: it hands out the rows of a sequence while it is open.
- **`Int128`.** This is the engine's signed 128-bit integer. The model covers:
  - checked add, subtract, negate, absolute value, multiply, divide and modulo;
  - comparison;
  - decimal rescaling (`setScale`) with its `I128limit` guard;
  - decimal text (`toString`);
  - the 32-bit limb view (`getTable32`, `setTable32`, `toInt64`);
  - the two AND masks;
  - the two extreme constants.

  Values are unbounded integers restricted to the 128-bit range. An operation that leaves the range
  returns the `Err` side of a `Result`, where the engine raises an arithmetic status error.
- **Expression-node helpers from `Nodes.h` and `BoolNodes.h`.** These cover:
  - type-checked downcasts;
  - the child enumeration (`getChildren`) and the visitors and `expressionLength` built on it;
  - the sorted stream list (`collectStreams`, `containsStream`, `containsAnyStream`);
  - the `ValueListNode` container;
  - the NULL rules of the boolean nodes (`ignoreNulls`, `possiblyUnknown`);
  - their `ReplaceExpr` rewrites and the DSQL finders.

  A node is a value of the `Expr` datatype; an absent child is `Null`.
- **Record-source node helpers from `RecordSourceNodes.h`.** These cover:
  - the effective NULL placement of a sort key;
  - the `RseNode` flag word, `clone` and `getChildren`;
  - the stream rules of table, relation and procedure sources;
  - the three `InversionNode` constructors.

Each operation comes with what the source promises about it. The partner of each operation is one of:
- a reference function it is proved equal to (`SetScale` and `Rescaled`, `ToString` and `Render`,
  `ExpressionLength` and `Descendants`);
- a round trip (the 32-bit words of a value and back, decimal digits and back);
- an invariant it keeps (the stream list stays sorted without duplicates; the bitmap scan yields the
  visible ids in ascending order, each once);
- a relation between operations (`div` and `mod` reassemble the dividend; `IN` follows the NULL rule of
  the equivalent `OR` chain).

Where the code and its documentation disagree, the model follows the code, with two exceptions. The
skip counter of `SkipRowsStream` and the loop index of `RDB$RANGES` are unbounded integers in the model,
so they behave as evidently intended; their 64-bit and 32-bit wrap-around is modelled beside them and
listed under "## Findings". The `RDB$RANGES` guard
`!fromNull || !toNull || to >= from` is modelled as written, although its shape suggests a slip. The
base rules of the expression nodes live in `src/dsql/ExprNodes.cpp`, which is not part of this model.
They are parameters (`BoolNodes.BaseRules`).

## Model

| member | source | states |
|---|---|---|
| Int128.Add | src/common/Int128.cpp:273-279 | the sum when it lies in the 128-bit range, otherwise an integer-overflow error |
| Int128.Sub | src/common/Int128.cpp:281-287 | the difference when it lies in the 128-bit range, otherwise an integer-overflow error |
| Int128.Neg | src/common/Int128.cpp:265-271 | the negation; overflow exactly for the minimum value |
| Int128.AbsValue | src/common/Int128.cpp:257-263 | the absolute value; overflow exactly for the minimum value |
| Int128.Mul | src/common/Int128.cpp:289-295 | the product when it lies in the 128-bit range, otherwise an integer-overflow error |
| Int128.Div | src/common/Int128.cpp:297-303 | divide-by-zero error exactly when the divisor is zero |
| Int128.Mod | src/common/Int128.cpp:305-312 | divide-by-zero error exactly when the divisor is zero; the remainder is smaller than the divisor in magnitude |
| Int128.DivModIdentity | src/common/Int128.cpp:297-312 | quotient times divisor plus remainder is the dividend; the quotient's magnitude is the magnitudes' quotient; a non-zero remainder has the dividend's sign |
| Int128.DivMinByMinusOne | src/common/Int128.cpp:297-303 | the minimum divided by -1 comes back as the minimum, not as an error |
| Int128.Compare | src/common/Int128.cpp:252-255 | -1, 0 or 1 exactly when the first value is less than, equal to or greater than the second |
| Int128.Greater | src/common/Int128.cpp:507-510 | `operator>` holds exactly when `compare` answers 1 |
| Int128.Equal | src/common/Int128.cpp:512-515 | `operator==` holds exactly when `compare` answers 0 |
| Int128.ComputeI128Limit | src/common/Int128.h:233-243 | one doubled 126 times and divided by five is the bound under which multiplying by ten stays in range, both ways |
| Int128.RoundOnLastRemainder | src/common/Int128.cpp:138-148 | rounding on the remainder of the last division by ten is rounding half away from zero of the value over 10^scale |
| Int128.SetScale | src/common/Int128.cpp:136-157 | equals `Rescaled`: a positive scale divides by 10^scale rounding half away from zero; a negative scale multiplies by 10^-scale, an out-of-range error when the product leaves 128 bits |
| Int128.Set | src/common/Int128.cpp:65-74 | a 64-bit value rescaled as `setScale` does |
| Int128.Assign | src/common/Int128.h:170-174 | assigning a 64-bit value keeps it exactly |
| Int128.ToInteger | src/common/Int128.cpp:159-167 | the rescaled value when it fits in 32 bits, otherwise the rescaling error or an overflow |
| Int128Text.ToString | src/common/Int128.cpp:181-220 | the text equals `Render`: sign, digits of the magnitude, then an exponent, trailing zeros or a decimal point by the scale |
| Int128Text.ToBuffer | src/common/Int128.cpp:169-179 | a truncation error carrying both lengths exactly when the text and its NUL do not fit; otherwise the text and its NUL |
| Int128Text.DigitsRoundTrip | src/common/Int128.cpp:183 | the decimal digits of a number read back as that number |
| Int128Text.PointPlacement | src/common/Int128.cpp:201-215 | with a scale of -p the point splits the digits into the quotient by 10^p and the p low digits, padded with zeros when the number is short |
| Int128Text.FixedPointValue | src/common/Int128.cpp:181-220 | with a scale of -p the text is the sign, the integer part, a point and a p-digit fraction that together read back as the magnitude |
| Int128Text.ScaledUpValue | src/common/Int128.cpp:196-200 | with a scale of 1 to 4 the digits with appended zeros read back as the magnitude times 10^scale |
| Int128Text.SignedTextParts | src/common/Int128.cpp:183-186 | ttmath's text starts with a minus exactly for a negative value; the rest are the magnitude's digits |
| Int128Words.FromWordsOfWords | src/common/Int128.cpp:418-457 | the four 32-bit limbs of a value join back into the value |
| Int128Words.WordsOfFromWords | src/common/Int128.cpp:418-457 | four words joined into a value split back into the same words |
| Int128Words.GetTable32 | src/common/Int128.cpp:418-436 | the first four array slots hold the value's limbs; the rest of the array is unchanged |
| Int128Words.SetTable32 | src/common/Int128.cpp:438-457 | the value whose limbs are the first four array slots |
| Int128Words.Int64Reassembly | src/common/Int128.cpp:229-233 | a value in the 64-bit range is its second limb read as signed, shifted by 32 bits, plus its first limb |
| Int128Words.ToInt64 | src/common/Int128.cpp:222-236 | the rescaled value when it is in the 64-bit range, otherwise the rescaling error or an overflow |
| Int128Words.AndMask32Value | src/common/Int128.cpp:474-481 | the masked value is the AND of the value's low 32 bits with the mask and never exceeds the mask |
| Int128Words.AndMask64Value | src/common/Int128.cpp:459-472 | the masked value is the AND of the value's low 64 bits with the mask and never exceeds the mask |
| Int128Words.AndMask64Idempotent | src/common/Int128.cpp:459-472 | masking twice with the same 64-bit mask equals masking once |
| Int128Words.Extreme | src/common/Int128.cpp:541-552 | `SetMax` gives a value with no successor in range, `SetMin` a negative value with no predecessor |
| SkipRows.SkipRowsStream.constructor | src/jrd/recsrc/SkipRowsStream.cpp:39-45 | a new filter is closed with a zero counter over its child |
| SkipRows.SkipRowsStream.Open | src/jrd/recsrc/SkipRowsStream.cpp:47-65 | flagged open; a negative skip raises the bad-skip error and leaves the child alone; otherwise the counter is skip + 1 and the child is opened |
| SkipRows.SkipRowsStream.Close | src/jrd/recsrc/SkipRowsStream.cpp:67-81 | the child's record is invalidated; the child is closed only if this stream was open |
| SkipRows.SkipRowsStream.GetRecord | src/jrd/recsrc/SkipRowsStream.cpp:83-105 | closed: false, child untouched; open: a row comes back exactly when the child has more rows than are to be discarded, the child advances past the discarded rows, and the counter ends at or below zero once a row is returned |
| SkipRows.SkipRowsStream.OpenThenRead | src/jrd/recsrc/SkipRowsStream.cpp:47-104 | `open` with a skip value and two `getRecord` calls: a negative value raises and nothing is read; otherwise, for every 64-bit `value`, the first call finds a row exactly when the child has more than `value` rows, the second exactly when it has more than `value + 1`, and after a second row the child has handed out exactly `value + 2` rows |
| SkipRows.LargestSkipAsWritten | src/jrd/recsrc/SkipRowsStream.cpp:62-102 | with the largest 64-bit skip the counter wraps to the minimum, so the first call discards no row; the decrement wraps it back to the maximum, so the second call discards 2^63 - 2 rows |
| SkipRows.SkipRowsStream.RefetchRecord | src/jrd/recsrc/SkipRowsStream.cpp:107-110 | the child's answer |
| SkipRows.SkipRowsStream.LockRecord | src/jrd/recsrc/SkipRowsStream.cpp:112-115 | the child's answer |
| SkipRows.SkipRowsStream.MarkRecursive | src/jrd/recsrc/SkipRowsStream.cpp:153-156 | the child is marked recursive; nothing else about it changes |
| SkipRows.SkipRowsStream.Print | src/jrd/recsrc/SkipRowsStream.cpp:117-151 | the plan text appended: the child alone in plain format; the node line and the child one level deeper when explained; the XML `skipRows` attribute only for a literal skip |
| SkipRows.PlanNesting | src/jrd/recsrc/SkipRowsStream.cpp:117-151 | a plain plan is the child's; a legacy plan is the node line followed by the child one level deeper; an XML plan ends by closing its element |
| VirtualTable.VirtualTableScan.constructor | src/jrd/recsrc/VirtualTableScan.cpp:40-45 | a new scan is closed |
| VirtualTable.VirtualTableScan.Open | src/jrd/recsrc/VirtualTableScan.cpp:47-60 | flagged open and positioned before the first record |
| VirtualTable.VirtualTableScan.Close | src/jrd/recsrc/VirtualTableScan.cpp:62-72 | closed with an invalid record; the position is kept |
| VirtualTable.VirtualTableScan.GetRecord | src/jrd/recsrc/VirtualTableScan.cpp:74-99 | closed: false and invalid; open: the position moves up one, and a row comes back, valid, exactly when the table supplies that record |
| VirtualTable.RunStopsAtFirstMiss | src/jrd/recsrc/VirtualTableScan.cpp:89-98 | the scan returns exactly as many rows as there are retrievable numbers before the first gap, then false |
| VirtualTable.ScanFromBof | src/jrd/recsrc/VirtualTableScan.cpp:47-99 | after `open`, a table with records 0 to k-1 yields exactly k rows |
| VirtualTable.VirtualTableScan.ScanAll | src/jrd/recsrc/VirtualTableScan.cpp:47-99 | `open` and then `getRecord` until false, on a table with records 0 to k-1 and none at k, returns the record numbers 0 to k-1 in order and stops at k with an invalid record |
| VirtualTable.VirtualTableScan.RefetchRecord | src/jrd/recsrc/VirtualTableScan.cpp:101-104 | always true |
| VirtualTable.VirtualTableScan.LockRecord | src/jrd/recsrc/VirtualTableScan.cpp:106-110 | always the lock-not-supported error |
| VirtualTable.VirtualTableScan.PrintPlain | src/jrd/recsrc/VirtualTableScan.cpp:116-126 | the plain plan: the name and NATURAL, in parentheses at the top level |
| VirtualTable.PlainPlanNesting | src/jrd/recsrc/VirtualTableScan.cpp:116-126 | the top-level plain plan is the nested one in parentheses |
| BitmapTable.NextVisible | src/jrd/recsrc/BitmapTableScan.cpp:107-119 | the first id from the start that is visible, with every id before it invisible, or none when no later id is visible |
| BitmapTable.YieldIsVisible | src/jrd/recsrc/BitmapTableScan.cpp:83-123 | the ids `Yield` lists from a start index are exactly the visible ids from there, in bitmap order |
| BitmapTable.YieldSkipsInvisible | src/jrd/recsrc/BitmapTableScan.cpp:109-118 | an invisible id contributes nothing to the rows returned |
| BitmapTable.VisibleIdsOrdered | src/jrd/recsrc/BitmapTableScan.cpp:83-123 | the rows of an ascending bitmap come back ascending, so never twice, and are exactly its visible ids |
| BitmapTable.BitmapTableScan.constructor | src/jrd/recsrc/BitmapTableScan.cpp:38-47 | a new scan is closed, not recursive, with no bitmap |
| BitmapTable.BitmapTableScan.Open | src/jrd/recsrc/BitmapTableScan.cpp:49-61 | flagged open with the evaluated bitmap, positioned before the first record |
| BitmapTable.BitmapTableScan.Close | src/jrd/recsrc/BitmapTableScan.cpp:63-81 | closed with an invalid record; only a recursive scan that was open drops its bitmap |
| BitmapTable.BitmapTableScan.GetRecord | src/jrd/recsrc/BitmapTableScan.cpp:83-123 | false and invalid when closed or without a bitmap; otherwise the next visible id after the current one (the first one from the start) with a valid record, or false and invalid once the bitmap is exhausted |
| BitmapTable.BitmapTableScan.ScanAll | src/jrd/recsrc/BitmapTableScan.cpp:49-123 | `open` and then `getRecord` until false returns the record numbers `Yield` lists from the start, which are exactly the bitmap's visible ids, ascending; no rows without a bitmap |
| BitmapTable.BitmapTableScan.PrintPlain | src/jrd/recsrc/BitmapTableScan.cpp:130-143 | the plain plan: the name, INDEX and the inversion, in parentheses at the top level |
| BitmapTable.PlainPlanNesting | src/jrd/recsrc/BitmapTableScan.cpp:130-143 | the top-level plain plan is the nested one in parentheses |
| Ranges.Entries | src/jrd/sys-packages/RangesPackage.cpp:53-59 | one non-NULL entry per integer from the lower to the upper bound, in ascending order |
| Ranges.NeverEndsAsWritten | src/jrd/sys-packages/RangesPackage.cpp:53 | with the upper bound at the largest 32-bit value the 32-bit loop is still running after any number of steps |
| Ranges.NumbersResultSet.constructor | src/jrd/sys-packages/RangesPackage.cpp:47-63 | the entries are `Entries(from, to)` when the guard holds and none otherwise; the position is at the first |
| Ranges.NumbersResultSet.Fetch | src/jrd/sys-packages/RangesPackage.cpp:65-73 | true exactly while entries remain: the current one is copied out and the position advances; otherwise false with the output untouched |
| Nodes.NodeAs | src/dsql/Nodes.h:368-386 | the node itself when present and of the requested type, otherwise null |
| Nodes.NodeIs | src/dsql/Nodes.h:388-396 | holds exactly when `nodeAs` would succeed |
| Nodes.NodeAsStable | src/dsql/Nodes.h:368-386 | a successful cast repeats to the same node, and recasting it to another type fails |
| Nodes.CreateAlterCode | src/dsql/Nodes.h:232-246 | the create-or-alter, create or alter code by the two flags; 0 when neither is set |
| Nodes.Children | src/dsql/BoolNodes.h:42-316 | the children `getChildren` adds, in declaration order, the sub-query by mode; together they are smaller than the node |
| Nodes.ExpressionLength | src/dsql/Nodes.h:727-744 | the holder walk returns the number of non-null nodes below the root |
| Nodes.VisitChildren | src/dsql/Nodes.h:571-582 | every DSQL child is visited in order, and the result is true exactly when one visit answers true |
| Nodes.Insert | src/dsql/Nodes.h:1250-1251 | a stream added unless present keeps the list sorted without duplicates and adds exactly that stream |
| Nodes.CollectStreams | src/dsql/Nodes.h:1248-1252 | the list stays sorted without duplicates and gains exactly the node's streams |
| Nodes.SingleStream | src/dsql/Nodes.h:683-684 | a sorted list without duplicates has one entry equal to s exactly when s is its only member |
| Nodes.ContainsStream | src/dsql/Nodes.h:678-686 | with `only`, whether s is the node's one stream; otherwise whether it is one of its streams |
| Nodes.AggregateHidesStreams | src/dsql/Nodes.h:1084-1089 | an aggregate leaves the stream list unchanged and contains no stream, not even its argument's, where another value expression over the same argument does |
| Nodes.AnyListed | src/dsql/Nodes.h:693-699 | true exactly when some listed stream is among the collected ones |
| Nodes.ContainsAnyStream | src/dsql/Nodes.h:688-700 | true exactly when the node refers to some listed stream; never for an empty list |
| Nodes.ValueListNode.WithCount | src/dsql/Nodes.h:1312-1321 | `count` null items and no grouping items |
| Nodes.ValueListNode.Single | src/dsql/Nodes.h:1323-1329 | the single given item |
| Nodes.ValueListNode.Empty | src/dsql/Nodes.h:1331-1336 | no items |
| Nodes.ValueListNode.AsExpr | src/dsql/Nodes.h:1338-1344 | the children of a value list are its items, in both modes |
| Nodes.ValueListNode.Add | src/dsql/Nodes.h:1346-1350 | the item is appended; the node itself is returned |
| Nodes.ValueListNode.AddList | src/dsql/Nodes.h:1352-1358 | the other list's items are appended in order; the node itself is returned |
| Nodes.ValueListNode.AddToGroup | src/dsql/Nodes.h:1360-1364 | the list is appended to the grouping items; the items are unchanged |
| Nodes.ValueListNode.AddFront | src/dsql/Nodes.h:1366-1370 | the item goes in at index 0 and the others move up one |
| Nodes.ValueListNode.Clear | src/dsql/Nodes.h:1377-1380 | no items left; the grouping items stay |
| Nodes.ValueListNode.ReplaceExpr | src/dsql/Nodes.h:1429-1440 | each non-null item is replaced by its rewrite; null items stay null; the count is kept |
| Nodes.SubExprNodeCopier.constructor | src/dsql/Nodes.h:1775-1782 | a stream map of `STREAM_MAP_LENGTH` slots, each stream mapped to itself |
| BoolNodes.AllIgnoreNulls | src/dsql/BoolNodes.h:198-204 | true exactly when every list item ignores NULLs |
| BoolNodes.OrChainIgnoresNulls | src/dsql/BoolNodes.h:54-59 | a chain of ORs ignores NULLs exactly when every operand does |
| BoolNodes.InListAsOrChain | src/dsql/BoolNodes.h:189-205 | `arg IN (list)` has the NULL rule of `arg = l0 OR arg = l1 OR ...` whenever an equality ignores the NULLs of either side |
| BoolNodes.NullTransparentPredicates | src/dsql/BoolNodes.h:238-246 | IS NULL, sub-query predicates, IS NOT DISTINCT FROM and aggregates (src/dsql/Nodes.h:1074-1082) are possibly unknown and never ignore NULLs, whatever the base rules; IN over an empty list ignores NULLs |
| BoolNodes.ReplaceExpr | src/dsql/BoolNodes.h:131-148 | the node kind is kept; AND/OR, NOT and sub-query predicates are left unchanged |
| BoolNodes.ReplaceRewritesChildren | src/dsql/BoolNodes.h:131-148 | each value child is the rewrite of the child in its place, absent children stay absent, and the operator is kept |
| BoolNodes.ReplaceIdentity | src/dsql/BoolNodes.h:252-259 | a rewrite that maps every present child to itself leaves the node unchanged |
| BoolNodes.DsqlAggregateFinder | src/dsql/BoolNodes.h:322-325 | a sub-query predicate answers false without visiting when sub-selects are ignored; otherwise all DSQL children are visited and or-ed |
| BoolNodes.DsqlSubSelectFinder | src/dsql/BoolNodes.h:327-330 | a sub-query predicate answers true without visiting; other nodes visit their DSQL children |
| RecordSourceNodes.GetEffectiveNullOrder | src/jrd/RecordSourceNodes.h:75-84 | an explicit placement is kept; the default becomes first for ascending and last for descending keys |
| RecordSourceNodes.EffectiveNullOrderIsDefinite | src/jrd/RecordSourceNodes.h:75-84 | a key with a direction always gets a definite placement; reversing the direction flips a default placement |
| RecordSourceNodes.Bit | src/jrd/RecordSourceNodes.h:786-793 | every flag is a single non-zero bit |
| RecordSourceNodes.FlagBitsDisjoint | src/jrd/RecordSourceNodes.h:786-793 | distinct flags have disjoint bits; two flags share a bit exactly when they are the same flag |
| RecordSourceNodes.FlagsIndependent | src/jrd/RecordSourceNodes.h:796-829 | setting a flag turns its test on and clearing it turns it off, leaving every other flag's test as it was |
| RecordSourceNodes.DefaultFlags | src/jrd/RecordSourceNodes.h:796-829 | with no flags set a query is invariant and no other test holds |
| RecordSourceNodes.RseNode.constructor | src/jrd/RecordSourceNodes.h:831-834 | every field absent, no flags, an inner join, no stream |
| RecordSourceNodes.RseNode.Clone | src/jrd/RecordSourceNodes.h:836-869 | a new node with every copied field equal to this one's, no stream and no DSQL flags |
| RecordSourceNodes.RseNode.CopyOf | src/jrd/RecordSourceNodes.h:838-866 | the new node's copied fields equal the source node's |
| RecordSourceNodes.RseNode.DsqlChildren | src/jrd/RecordSourceNodes.h:877-884 | the eight DSQL children in the order they are added |
| RecordSourceNodes.RseNode.GetChildren | src/jrd/RecordSourceNodes.h:871-886 | in DSQL mode the eight children are appended; otherwise the holder is unchanged |
| RecordSourceNodes.SourceContainsStream | src/jrd/RecordSourceNodes.h:325-328 | a table, relation or procedure contains exactly its own stream |
| RecordSourceNodes.ComputeDbKeyStreams | src/jrd/RecordSourceNodes.h:330-333 | tables and relations append their own stream; procedures, aggregates and windows append nothing |
| RecordSourceNodes.DbKeyStreamsAreContainedStreams | src/jrd/RecordSourceNodes.h:400-408 | for a table or relation the dbkey streams are exactly the contained streams, with the earlier list kept as a prefix |
| RecordSourceNodes.SourceLeafStreams | src/jrd/RecordSourceNodes.h:400-403 | the expression-tree leaf of a local table or a relation, both of which keep the base `collectStreams`, answers `containsStream` as the source does, with and without `only` |
| RecordSourceNodes.BinaryInversion | src/jrd/RecordSourceNodes.h:217-226 | a combination node with the given kind and operands, no impure offset, id 0 and no retrieval; well formed for AND, OR and IN of two operands |
| RecordSourceNodes.IndexInversion | src/jrd/RecordSourceNodes.h:228-237 | a well-formed index leaf with the given retrieval and impure offset |
| RecordSourceNodes.DbKeyInversion | src/jrd/RecordSourceNodes.h:239-248 | a well-formed dbkey leaf with the given value and id |

## Left out

- Int128: conversions from and to `double` and `Decimal128`, `set(const char*)`, and the index-key encoding (`makeKey`, `grabKey`, `makeIndexKey`) are floating-point or storage formats outside this model.
- Int128: unary `operator-` (src/common/Int128.cpp:490-493) calls `neg` and is `Int128.Neg`. `operator/(unsigned)` (src/common/Int128.cpp:483-488) is not modelled: it divides a fresh default-constructed value rather than the receiver, so it does not compute the quotient of the receiver.
- Int128: `operator+=` and `operator*=` (src/common/Int128.cpp:495-505) are not modelled. They call ttmath's `AddInt` and `MulInt` and ignore the carry, so they wrap silently where `Int128.Add` and `Int128.Mul` report overflow.
- Int128: the limb layout with 64-bit limbs is not modelled; the 32-bit layout is.
- Int128: members that update the receiver in place (`setScale`, `setTable32`, `set`, `&=`) return the new value instead.
- Int128: ttmath's internals are not part of this model. `div` of the minimum by -1 is taken to wrap to the minimum (`Int128.DivMinByMinusOne`).
- Plan printing: the legacy and XML forms of the virtual and bitmap scans are not modelled; their plain form is. `printName`, `printIndent` and `printInversion` are parameters.
- Scheduling (`JRD_reschedule`), record retrieval (`VIO_get`, `retrieveRecord`) and relation locking (`RLCK_reserve_relation`) are not modelled. The visible and retrievable record numbers are sets given to the scans.
- BitmapTable.BitmapTableScan: the bitmap pointer's aliasing is not modelled; the bitmap is an optional sequence of ids. `markRecursive` is in the base record stream class, which is not part of this model; it is modelled as setting the flag `close` reads.
- RecordSource: `RecordNumber` and `RecordStream::invalidateRecords` are defined in files that are not part of this model. `BOF_NUMBER` is taken as -1, and `setValue` leaves the validity flag as it was.
- SkipRows.SkipRowsStream.Open: the open flag is set before a negative skip raises, as in the code; what the caller does after the raise is not modelled.
- SkipRows.SkipRowsStream.Open: the counter `count` is an unbounded integer, so `value + 1` does not wrap at the largest 64-bit skip value as the code's signed 64-bit `irsb_count` does; the model keeps the intended behaviour, and the as-written wrap is stated in `SkipRows.LargestSkipAsWritten`.
- SkipRows.SkipRowsStream.GetRecord: the counter ends at or below zero only when a row is returned; a call that runs the child dry leaves it at the skip count minus the rows consumed.
- Ranges.NumbersResultSet.constructor: the loop index is an unbounded integer, so with the upper bound 2147483647 the loop stops after that entry, where the code's 32-bit `i` wraps and the loop never ends; the model keeps the intended behaviour, and the as-written loop is stated in `Ranges.NeverEndsAsWritten`.
- BoolNodes: the base rules of `ExprNode` (`ignoreNulls`, `possiblyUnknown` in `src/dsql/ExprNodes.cpp`) are parameters.
- Nodes: an aggregate-function node (`AggNode`) is the `Aggregate` case with its one argument; its type tag, capabilities and aggregation passes are not modelled, only its child and its overrides of `collectStreams`, `possiblyUnknown` and `ignoreNulls`.
- BoolNodes: the `ReplaceExpr` of `InListBoolNode` is declared outside the lines of this model, so it is not modelled.
- Nodes: the default `ExprNode::collectStreams` lives in `src/dsql/ExprNodes.cpp`, which is not part of this model. It is taken to pass the list to every non-DSQL child.
- Nodes: `StreamType`'s width is not shown, so `INVALID_STREAM` is taken as -1.
- Nodes.ValueListNode.AddList: requires the other list to be a different node. Appending a list to itself would iterate over a growing array, and the model does not follow that aliasing.
- RecordSourceNodes: `containsStream` of aggregate and window sources is defined outside the lines of this model.
- RecordSourceNodes.SourceLeafStreams: only local tables and relations are covered. `ProcedureSourceNode` (src/jrd/RecordSourceNodes.h:495), `WindowSourceNode` (:757) and `RseNode` (:918) override `collectStreams` with bodies outside the lines of this model, so the `Source(s)` leaf of `Nodes.Expr` models only the base rule, which adds the node's own stream.
- DDL execution, node registries, and `pass1`, `pass2` and `copy` are not modelled.

## Findings

| source | as written | input that shows it | evidently intended | confidence | as-written member | corrected member |
|---|---|---|---|---|---|---|
| src/jrd/recsrc/SkipRowsStream.cpp:62 | `irsb_count = value + 1` in a signed 64-bit counter | skip value 9223372036854775807 | the first fetch discards the skip value's rows and later fetches discard none | not executed | SkipRows.LargestSkipAsWritten | SkipRows.SkipRowsStream.OpenThenRead |
| src/jrd/sys-packages/RangesPackage.cpp:53 | `for (auto i = from; i <= to; i++)` with a 32-bit `i` | any lower bound with upper bound 2147483647 | one entry per integer up to and including the upper bound, then stop | not executed | Ranges.NeverEndsAsWritten | Ranges.Entries |

In the first row the counter wraps to the minimum, so the first fetch discards no row. Its decrement then wraps the counter back to the maximum, so the second fetch discards 2^63 - 2 rows. In the second, `i` can never pass the upper bound, so the loop never ends.
