# InvoiceKit: verified models of its small algorithms

InvoiceKit's bridges, bindings and tools contain a number of small stateful or
recursive algorithms whose correctness examples cannot settle.  This project models
them in Dafny and proves what they promise.  `dafny verify dfyconfig.toml` checks
everything.

| part | files | what is proved |
|---|---|---|
| OpenAPI component schemas | `SchemaHoist`, `SchemaMeaning` | moving `$defs` into `components/schemas` (section 8.2.4 of JSON Schema 2020-12 Core, section 4.8.7 of OpenAPI 3.1.0) preserves what every reference means |
| REST shim store | `Preimage`, `InvoiceStore`, `StoreRuns` | safety of two maps under two locks over every interleaving, and of the hash that names their entries |
| Stripe dates and money | `Calendar`, `DateText`, `Digits`, `Money` | the date loop against the Gregorian calendar (section 3.2.1 of ISO 8601:2004), text order of dates, decimal printing, derived unit price |
| Core SDK decimals | `Decimals` | exactness and order independence of the invoice subtotal |
| Money | `Allocation` | splitting an amount by ratios: exact conservation, fairness, uniqueness |
| Canonical XML | `NamespacePrefixes` | prefixes for attribute namespaces: order independence, distinctness, and when they are a fixed point |
| Template designer | `Lines`, `Designer`, `DesignerState`, `DesignerRoundTrip`, `DesignerRule` | emit and parse of a commented JSON header inside a larger text, and its round-trip rule |
| Source-watch bot | `CanonicalJson`, `Registry`, `SourceWatch`, `WatchHistory` | signing payload, and detect, dedupe, open, save over histories with aborted passes |
| Sandbox drift canary | `Drift`, `DriftCheck`, `DriftMeaning` | what stripping keeps, what an empty comparison says, which findings there are, and symmetry |
| CII coverage | `Reachability`, `CoverageRows` | breadth-first reachability with a queue that repeats, and row conservation |
| Release checks | `DepthTree`, `WaiverScope` | the stack parser inverts the depth-prefixed listing; the meaning of a silent scope check |
| Conformance corpus | `MetadataSchema`, `FixtureCorpus` | what an accepted metadata file and an accepted corpus guarantee |
| Licence headers | `LicenseHeader` | the fixer against its own classifier |

`Json`, `JsonText`, `JsonRoundTrip` and `JsonLayout` hold the JSON values, printers and
parser that several parts share, with the proofs that parsing inverts printing in every
layout and that a printed text tells the order of members;
`Text` holds the order of strings and `Wrappers` the usual options and results.

## How the source is modelled

A JSON object is a map, so equality ignores key order, as it does in the languages
concerned; where an object is printed its members are a list in the object's own order.
A number is identified with the text its runtime prints for it; where a text may hold
numbers written otherwise, what the runtime makes of them is a parameter.  Methods that
update fields, dictionaries, files or loop variables are methods with loops; each is
tied to a specification function or stated outright, and the lemmas are about that.
What a specification function computes is in turn fixed by laws that do not name it:
place by place, keyword by keyword, event by event, or by reading back.
Iteration order over a Rust map is left open, since the `preserve_order` feature of
serde_json is unified into the workspace; the hoisting results hold in every order.
Calls into other crates, the network, the clock, subprocesses and hash functions are
parameters.  Where a hash must not collide, this is asked only of the byte strings
actually hashed.  An aborted source-watch pass may stop after any number of sources,
which includes the moment after an issue was opened and before its snapshot was
recorded.

The schema results ask that definitions be schemas, that is objects or booleans, as
the generator guarantees.  Source ids are distinct within a pass because
`load_registry` refuses a registry that repeats one.  The licence fixer is given a
four-digit year, which its own pattern asks for.

## Where the code falls short of a promise

Each of these has a lemma with a failing input, beside one that says exactly when the
promise holds.

- The designer's "inject after the licence line" puts the header above the copyright
  line, whose text then reads as part of the JSON (`LicenceLinesBreakInjection`).  The
  round trip holds exactly when the comment lines directly below the insertion point
  are blank (`EmitThenParse`).
- The round-trip rule at `apps/wysiwyg-designer/src/template-emit.ts:39-40` fails for a
  state object whose members stand in another order than the parser builds them, such
  as page before blocks (`PageFirstIsReordered`).  It holds of an emitted text exactly
  when the object has the parser's order and no surplus member and nothing dangles
  under the block (`ParseThenEmitRestores`), and of any source exactly when its header
  is printed that way (`RuleHoldsIff`).  It also fails for a number written by hand as
  `1.0` (`WrittenPointZeroIsRewritten`), and holds of a header that differs from a
  printed one only in its numbers exactly when each is written as the runtime prints it
  (`WrittenNumbersDecide`).
- Copyright lines are added again by every emission (`UsualCopyrightRepeats`); emission
  settles exactly when there are none and nothing dangles (`CopyrightRepeats`).
- Splitting an amount promises parts that add up to the original amount.  1.005 at two
  decimals loses half a cent (`HalfUnitIsLost`); the parts add up exactly when the
  amount is a whole number of minor units (`PartsSumToAmountIff`).
- Attribute prefixes are said to be a fixed point of canonicalisation.  A foreign
  namespace written with `udt` that sorts between the two namespaces sharing that prefix
  moves (`ForeignUdtMoves`); nothing moves exactly when no foreign namespace holds a
  numbered prefix that an overlay namespace was passed over for (`FixedPointIff`), so
  never when no foreign namespace is written with an overlay prefix in use
  (`StableWithoutForeignClaims`).
- The licence fixer calls itself idempotent.  A file that holds the bare licence line
  without a line break needs two runs (`BareLicenceLineNeedsBreak`); one run is enough
  exactly unless the licence line is the last line and has no line break (`FileSettles`).
- A watched source that flips back to a text announced earlier changes the persisted
  snapshot without a new issue (`FlipBackHappens`), which happens exactly when its
  marker is in the ledger (`FlipBackIsSilent`).
- Two schemas that define one name differently share the first definition
  (`ClashChangesMeaning`); every definition is stored as offered exactly when equal
  names agree (`DocumentStoresAllIffNamesAgree`).
- Dates of the year 10000 sort before those of 9999 (`OrderEndsWithYear9999`) and those
  of year -1 before those of year -2 (`OrderStartsWithYearMinusOne`); text order
  is day order exactly from year -1 to year 9999 (`TextOrderHoldsExactly`).
- A repeated creation keeps id and document but can replace the stored request and
  bundle (`RecreateHappens`); it changes nothing exactly when both bodies make the same
  request (`RecreateReplacesRequest`).

## Model

| member | source | states |
|---|---|---|
| SchemaHoist.RewriteSchemaRefs | bindings/rest-shim/src/lib.rs:822-847 | the recursive rewrite, child by child, computes the reference rewriting that the lemmas below are about |
| SchemaHoist.RewriteIdempotent | bindings/rest-shim/src/lib.rs:822-847 | rewriting a rewritten schema changes nothing, which is what lets hoisting rewrite every definition again |
| SchemaHoist.RewriteLeavesNoDefsRef | bindings/rest-shim/src/lib.rs:822-838 | at no depth does a `#/$defs/` reference survive the rewrite |
| SchemaHoist.StoredKeepsMembers | bindings/rest-shim/src/lib.rs:799-820 | a stored schema has every member of the generated one but `$defs` |
| SchemaHoist.WrittenForms | bindings/rest-shim/src/lib.rs:805-832 | how local and component references are written, and that the definitions are the object under `$defs` |
| SchemaHoist.ComponentMap.HoistSchemaDefs | bindings/rest-shim/src/lib.rs:805-820 | hoisting returns the schema rewritten and without its `$defs`, keeps every earlier entry, adds only definitions nested in the schema and leaves none of their names out, in whatever order definitions are visited |
| SchemaHoist.ComponentMap.HoistEach | bindings/rest-shim/src/lib.rs:816-819 | the loop over definitions: nested ones first, and the first definition of a name stays |
| SchemaHoist.ComponentMap.InsertSchema | bindings/rest-shim/src/lib.rs:799-803 | insertion hoists and then stores the schema under its own name, replacing an entry of that name and no other |
| SchemaMeaning.RewriteKeepsMeaning | bindings/rest-shim/src/lib.rs:822-847 | unfolding references through `$defs` before the rewrite and through the components after it gives the same value to every depth |
| SchemaMeaning.InsertStoresAllIffNoClash | bindings/rest-shim/src/lib.rs:799-820 | every nested definition is stored as it was exactly when no name clashes inside the schema, with its own name, or with a different earlier entry |
| SchemaMeaning.InsertLeavesNoDefsRef | bindings/rest-shim/src/lib.rs:799-820 | no `#/$defs/` reference is left in the component map after an insertion |
| SchemaMeaning.InsertKeepsMeaning | bindings/rest-shim/src/lib.rs:799-847 | without a clash, the inserted schema means what it meant when it was generated, to every depth |
| SchemaMeaning.InsertKeepsClosed | bindings/rest-shim/src/lib.rs:799-847 | if every component reference resolved before, and the schema's own local and component references resolve after the insertion, every one resolves afterwards |
| SchemaMeaning.InsertKeepsEarlierMeaning | bindings/rest-shim/src/lib.rs:799-820 | entries under other names keep their definition and their meaning |
| SchemaMeaning.OpenApiComponents | bindings/rest-shim/src/lib.rs:784-797 | the finished map has exactly the names the inputs offer, each with a definition some input offers under that name |
| SchemaMeaning.DocumentHasNoDefsRef | bindings/rest-shim/src/lib.rs:784-847 | the finished document has no `#/$defs/` reference |
| SchemaMeaning.DocumentIsClosed | bindings/rest-shim/src/lib.rs:784-847 | every component reference of the finished document resolves |
| SchemaMeaning.DocumentStoresAllIffNamesAgree | bindings/rest-shim/src/lib.rs:784-820 | every offered definition is the stored one exactly when equal names carry equal definitions over the whole document |
| SchemaMeaning.DocumentKeepsMeaning | bindings/rest-shim/src/lib.rs:784-847 | when equal names agree, every schema of the document still means what it meant, to every depth |
| SchemaMeaning.ClashChangesMeaning | bindings/rest-shim/src/lib.rs:816-819 | a concrete clash: the second schema's reference now reaches the first schema's definition |
| Preimage.FeedInjective | bindings/rest-shim/src/lib.rs:548-554 | two lists of byte strings below 2^64 bytes that feed the hasher the same bytes are equal, also when they differ in number |
| Preimage.FeedReadsBack | bindings/rest-shim/src/lib.rs:550-553 | read as eight big-endian bytes of length and that many bytes, again and again, the feed gives back the parts |
| Preimage.HashIsOf | bindings/rest-shim/src/lib.rs:548-557 | the hashed bytes are the ASCII tag and the feed, and the short hash is the first 24 characters of the digest |
| InvoiceStore.PrefixedHash | bindings/rest-shim/src/lib.rs:548-557 | the incremental hashing loop absorbs the tag and the length-prefixed parts, and the id is the prefix, an underscore and 24 digest characters |
| InvoiceStore.RestShimState.CreateInvoice | bindings/rest-shim/src/lib.rs:249-289 | each failing stage answers its error, a refusing engine with its response, and leaves the store alone; otherwise exactly one invoice is stored under the hash of key and engine response, and the answer carries that id twice, status 0 and the encoded response |
| StoreRuns.CreationSucceedsIff | bindings/rest-shim/src/lib.rs:254-288 | which stage answers what: a creation succeeds exactly when request, engine, document and bundle do, and stores just what they gave |
| StoreRuns.RecordIs | bindings/rest-shim/src/lib.rs:326-332 | a record carries its own id, the invoice id, `accepted` and `mock` |
| StoreRuns.StepsTouch | bindings/rest-shim/src/lib.rs:276-338 | a creation adds or replaces one invoice and nothing else, an insertion one record and nothing else |
| InvoiceStore.RestShimState.InsertTransmission | bindings/rest-shim/src/lib.rs:326-338 | the second half of a transmission stores one record under the hash of the invoice id and touches no invoice |
| InvoiceStore.RestShimState.TransmitInvoice | bindings/rest-shim/src/lib.rs:321-345 | an unknown invoice is refused and changes nothing; a known one gets its record |
| InvoiceStore.RestShimState.Reconcile | bindings/rest-shim/src/lib.rs:362-379 | one answer per requested id, in order, true exactly for stored invoices |
| StoreRuns.RunKeepsConsistent | bindings/rest-shim/src/lib.rs:249-379 | over every interleaving, with a transmission's check and insert as separate steps: each record is stored under its own id and names a stored invoice, and nothing stored disappears |
| StoreRuns.OneTransmissionPerInvoice | bindings/rest-shim/src/lib.rs:321-345 | no invoice has two transmissions, whatever the hash does |
| StoreRuns.RetransmitChangesNothing | bindings/rest-shim/src/lib.rs:321-345 | inserting the transmission of an invoice again leaves the store as it is |
| StoreRuns.IdsDiffer | bindings/rest-shim/src/lib.rs:548-557 | if no two hashed byte strings collide, equal ids come from equal lists of parts |
| StoreRuns.RunSettles | bindings/rest-shim/src/lib.rs:249-379 | without collisions, over every interleaving, a stored record never changes and a stored invoice keeps its document |
| StoreRuns.TransmissionsMatchInvoices | bindings/rest-shim/src/lib.rs:321-338 | without collisions, two invoices share a transmission id exactly when they are one invoice |
| StoreRuns.CheckStaysGood | bindings/rest-shim/src/lib.rs:321-345 | once the check passed, the insert finds the invoice still stored and its record in place, however much happened in between |
| StoreRuns.TransmissionReadsBack | bindings/rest-shim/src/lib.rs:321-360 | without collisions, whoever asks for a transmission at any later time, over every interleaving, gets the record that was inserted, and its invoice is there |
| StoreRuns.InvoiceReadsBack | bindings/rest-shim/src/lib.rs:249-319 | without collisions, whoever looks an invoice up at any later time finds the document its creation stored |
| StoreRuns.RecreateReplacesRequest | bindings/rest-shim/src/lib.rs:265-287 | creating again with the same key and an equally answered body keeps id and document, and stores the request and the bundle of the later body; it changes nothing exactly when both bodies make the same request |
| StoreRuns.RecreateHappens | bindings/rest-shim/src/lib.rs:265-287 | with an engine that answers two requests alike, the second creation leaves one invoice with the other request |
| Calendar.CivilFromEpoch | bridges/stripe-invoicing/src/lib.rs:557-588 | for every integer epoch both loops stop, and the result is the one valid Gregorian date whose closed-form day number is the epoch divided by 86400, rounded down |
| Calendar.DayNumberCountsDays | bridges/stripe-invoicing/src/lib.rs:557-593 | the closed form is anchored at 1970-01-01 and grows by one from each date to the next over months, leap days and years |
| Calendar.DayNumberOrders | bridges/stripe-invoicing/src/lib.rs:557-593 | day numbers order valid dates as year, month, day do, and no two dates share one |
| DateText.UnixToDateText | bridges/stripe-invoicing/src/lib.rs:557-589 | the printed text is that of the date of the epoch's day |
| DateText.FieldsReadBack | bridges/stripe-invoicing/src/lib.rs:588-589 | in years 0 to 9999 the text is ten characters with year, month and day where `YYYY-MM-DD` has them |
| DateText.AnyYearReadsBack | bridges/stripe-invoicing/src/lib.rs:588-589 | in any year month and day stand in the last six characters and the year, with a sign below zero, before them |
| DateText.TextOrderIsDayOrder | bridges/stripe-invoicing/src/lib.rs:588-589 | in years 0 to 9999 the order of the texts is the order of the days |
| DateText.OrderEndsWithYear9999 | bridges/stripe-invoicing/src/lib.rs:588-589 | the day after 9999-12-31 sorts before it |
| DateText.OrderStartsWithYearMinusOne | bridges/stripe-invoicing/src/lib.rs:588-589 | the last day of year -1 sorts before the first of year -2 |
| DateText.TextOrderHoldsExactly | bridges/stripe-invoicing/src/lib.rs:588-589 | over any range of years that meets -1 to 9999, text order is day order exactly when the range lies within them |
| DateText.WindowIsClosedInterval | bindings/rest-shim/src/lib.rs:578-588 | comparing texts accepts exactly the days of the closed validity interval; an absent or non-text bound does not restrict |
| Money.ReadOfPrint | bridges/stripe-invoicing/src/lib.rs:521-537 | for every 64-bit amount, also the least, and every exponent, the text has exactly `exponent` fraction digits and reads back as the amount |
| Money.PrintInjective | bridges/stripe-invoicing/src/lib.rs:521-537 | at a fixed exponent no two amounts print alike |
| Money.PrintedPlainly | bridges/stripe-invoicing/src/lib.rs:521-537 | no superfluous zero in front, and a minus exactly below zero |
| Money.DerivedPriceBounds | bridges/stripe-invoicing/src/lib.rs:502-504 | the derived price misses the amount by less than the quantity, never overshoots it and never has the other sign |
| Money.StatedPriceIsKept | bridges/stripe-invoicing/src/lib.rs:491-495 | a price in whole minor units is printed exactly |
| Money.SummaryAddsUp | bridges/stripe-invoicing/src/lib.rs:478-505 | read back from the printed summary: the total is the line's amount, and quantity times unit price misses it by less than the quantity, on the side of zero |
| Money.SummaryKeepsAmounts | bridges/stripe-invoicing/src/lib.rs:357-384 | read at the exponent of the currency, the summary has the invoice's subtotal, total and tax, and its line totals add up to what the line amounts do |
| Money.ExponentIs | bridges/stripe-invoicing/src/lib.rs:510-519 | the currencies without minor units, and those with three digits of them |
| Money.LineCarries | bridges/stripe-invoicing/src/lib.rs:478-505 | a line summary keeps id, description and amount, a quantity below one becomes one, and a sub-unit price text is rescaled |
| Money.SummaryCarries | bridges/stripe-invoicing/src/lib.rs:357-384 | an invoice is refused exactly without a currency; otherwise every line has its summary, in order |
| Decimals.FormatReads | bindings/typescript-sdk-core/src/index.ts:256-267 | what is printed is accepted again, has the scale asked for and denotes the value, also for negatives with whole part zero |
| Decimals.FormattedPlainly | bindings/typescript-sdk-core/src/index.ts:256-267 | no superfluous zero in front, and a minus exactly below zero |
| Decimals.DecimalIff | bindings/typescript-sdk-core/src/index.ts:187-194 | accepted are exactly the texts of an optional minus, digits, and perhaps a point and more digits |
| Decimals.LayoutDenotes | bindings/typescript-sdk-core/src/index.ts:237-245 | such a text denotes its digits, read as whole part and fraction, at the scale of its fraction |
| Decimals.MultiplyExact | bindings/typescript-sdk-core/src/index.ts:237-245 | the product text denotes the exact product at the sum of the scales |
| Decimals.AddExact | bindings/typescript-sdk-core/src/index.ts:247-254 | the sum text denotes the exact sum at the larger scale |
| Decimals.TotalIsExact | bindings/typescript-sdk-core/src/index.ts:139-142 | folding texts from "0" gives the printed exact sum at the largest scale |
| Decimals.SubtotalIsExact | bindings/typescript-sdk-core/src/index.ts:118-142 | the lines are refused exactly when there is none or one is invalid; otherwise the subtotal is the printed exact sum of quantity times unit price at the largest product scale |
| Decimals.RefusalIsTrue | bindings/typescript-sdk-core/src/index.ts:118-126 | a refusal says there are no lines, or names the first invalid line and its first invalid field |
| Decimals.SubtotalIgnoresOrder | bindings/typescript-sdk-core/src/index.ts:122-142 | permuting the lines does not change the subtotal text |
| Allocation.Allocate | crates/money/src/lib.rs:290-380 | each error exactly in its case: no ratios, only zero ratios, an overflow; otherwise the parts of the amount rounded to minor units, by largest remainder |
| Allocation.PartsAre | crates/money/src/lib.rs:366-379 | every part is given at the working scale with the sign of the amount |
| Allocation.ScaleFits | crates/money/src/lib.rs:304-306 | the scale factor overflows exactly beyond nineteen digits |
| Allocation.AllocateUnits | crates/money/src/lib.rs:328-364 | the two loops hand out whole shares and then the leftover units, one each, to the largest remainders, the first of equal ones first |
| Allocation.HalfEvenIsNearest | crates/money/src/lib.rs:308-314 | the amount is rounded to the nearest minor unit, halves to the even one, and a whole number stays |
| Allocation.AllocationUnique | crates/money/src/lib.rs:290-380 | sum, whole shares and the largest-remainder rule leave no choice of the parts |
| Allocation.PartIsNearExactShare | crates/money/src/lib.rs:328-364 | every part is less than one minor unit from its exact share |
| Allocation.RaisedHasRemainder | crates/money/src/lib.rs:353-364 | no leftover unit goes to a part whose share is whole |
| Allocation.LargerRatioGetsNoLess | crates/money/src/lib.rs:353-364 | a larger ratio never gets less, and of two equal ones the first never gets less |
| Allocation.PartsSumToRoundedAmount | crates/money/src/lib.rs:259-264 | the parts add up to the amount rounded to minor units |
| Allocation.PartsSumToAmountIff | crates/money/src/lib.rs:259-264 | the parts add up to the original amount exactly when it is a whole number of minor units |
| Allocation.HalfUnitIsLost | crates/money/src/lib.rs:259-264 | 1.005 split at two decimals adds up to 1.00 |
| NamespacePrefixes.AssignAttributePrefixes | crates/canonical/src/lib.rs:591-657 | from the attributes: the preferred prefixes of their namespaces, and an assignment to them |
| NamespacePrefixes.PreferenceIs | crates/canonical/src/lib.rs:597-622 | a namespace prefers its overlay prefix, or else the least of the prefixes it is written with |
| NamespacePrefixes.OverlayIs | crates/canonical/src/lib.rs:523-537 | which namespaces have an overlay prefix, and which of them each prefix is for |
| NamespacePrefixes.CollectSources | crates/canonical/src/lib.rs:602-610 | the loop collects exactly the prefixes every namespace is written with |
| NamespacePrefixes.AssignPrefixes | crates/canonical/src/lib.rs:628-654 | the loop stops and gives every namespace the first of its numbered prefixes that is free when its turn comes |
| NamespacePrefixes.FirstFree | crates/canonical/src/lib.rs:638-651 | the search stops, since only so many prefixes are taken, at the first candidate bound to no other namespace |
| NamespacePrefixes.SortEntries | crates/canonical/src/lib.rs:612-623 | the namespaces in the order of preferred prefix and URI, each once |
| NamespacePrefixes.AssignmentUnique | crates/canonical/src/lib.rs:560-582 | preferred prefixes and scope determine the assignment |
| NamespacePrefixes.OrderIndependent | crates/canonical/src/lib.rs:560-582 | attributes in any other order get the same prefixes |
| NamespacePrefixes.NeverRebinds | crates/canonical/src/lib.rs:638-644 | no namespace is given a prefix that is bound to another one in scope |
| NamespacePrefixes.DistinctPrefixes | crates/canonical/src/lib.rs:584-587 | different namespaces get different prefixes |
| NamespacePrefixes.RenderedPrefers | crates/canonical/src/lib.rs:523-543 | read again, a namespace prefers its overlay prefix or the prefix it was rendered with |
| NamespacePrefixes.FixedPointIff | crates/canonical/src/lib.rs:570-582 | assigning again changes nothing exactly when no namespace unknown to the overlay holds a numbered prefix that was passed over for one known to it |
| NamespacePrefixes.RenderingIsStableIff | crates/canonical/src/lib.rs:570-582 | the same of attributes and of what is rendered from them |
| NamespacePrefixes.StableWithoutForeignClaims | crates/canonical/src/lib.rs:570-582 | in particular when no foreign namespace is written with a prefix the overlay gives to another one present |
| NamespacePrefixes.ForeignUdtMoves | crates/canonical/src/lib.rs:570-582 | three attributes for which assigning again gives other prefixes: the two `udt` namespaces and `urn:p` written with `udt` |
| Designer.FindHeaderEnd | apps/wysiwyg-designer/src/template-emit.ts:76-88 | the scan stops at the last comment line directly under the tag line |
| Designer.EmitIntoTemplate | apps/wysiwyg-designer/src/template-emit.ts:42-59 | the in-place replacement or injection computes the emission that the lemmas below are about |
| Designer.CollectBody | apps/wysiwyg-designer/src/template-parse.ts:42-48 | the loop collects exactly the run of comment lines under the tag, without their marks |
| Designer.ParseHeader | apps/wysiwyg-designer/src/template-parse.ts:36-65 | the parser computes the reading that the lemmas below are about, with its three errors |
| DesignerState.ParseTells | apps/wysiwyg-designer/src/template-parse.ts:36-65 | in which of five ways a text is read: no tag, no body, malformed, wrong shape, or the state its body has the shape of |
| DesignerState.StrippedComment | apps/wysiwyg-designer/src/template-parse.ts:67-72 | the comment mark and one blank behind it are taken off, or the mark alone |
| DesignerState.StateIff | apps/wysiwyg-designer/src/template-parse.ts:88-164 | coercing gives a state exactly when the value has the shape of a state object with these contents, member by member |
| DesignerState.StateCoerces | apps/wysiwyg-designer/src/template-parse.ts:88-164 | coercing the JSON of a state reads it number by number: each becomes what the runtime prints for it, and one that is not finite is refused |
| DesignerState.StateReadsBack | apps/wysiwyg-designer/src/template-parse.ts:152-164 | a state reads back as itself exactly when all its numbers are written the way the runtime prints them |
| DesignerState.PageFirstPresents | apps/wysiwyg-designer/src/template-parse.ts:88-96 | a state object with its page before its blocks coerces to the same state and is another object than the one coercing builds |
| DesignerState.StringifySpells | apps/wysiwyg-designer/src/template-emit.ts:61-66 | for a state object with its members in any order: whatever separate text follows the printed JSON, a reader stops at its end and coerces it to the state |
| JsonLayout.PrintInjective | apps/wysiwyg-designer/src/template-emit.ts:61-66 | two JSON trees print alike exactly when they are equal, the order of members included |
| JsonLayout.PrintedLinesEndVisibly | apps/wysiwyg-designer/src/template-emit.ts:61-66 | no line of a printed JSON text ends in white space |
| JsonLayout.Layouts | apps/wysiwyg-designer/src/template-emit.ts:61-66 | the two layouts of arrays and objects: compact, or one element a line, two blanks deeper than its bracket |
| JsonLayout.EscapedIff | apps/wysiwyg-designer/src/template-emit.ts:61-66 | only what must be is escaped in a string |
| DesignerRule.StringifyLayout | apps/wysiwyg-designer/src/template-emit.ts:61-66 | the JSON of a state object, a member a line and two blanks in, between braces |
| DesignerRoundTrip.EmittedLines | apps/wysiwyg-designer/src/template-emit.ts:42-74 | split into lines, the result is the old lines outside the block, in order, around the new block |
| DesignerRoundTrip.BlockIsWritten | apps/wysiwyg-designer/src/template-emit.ts:61-73 | the block is the tag line and the JSON lines, each behind a comment mark and a blank |
| DesignerRoundTrip.PlaceOfNewHeader | apps/wysiwyg-designer/src/template-emit.ts:49-56 | a new header goes under the first licence line, or at the top when there is none |
| DesignerRoundTrip.PlaceOfOldHeader | apps/wysiwyg-designer/src/template-emit.ts:57-59 | a header is replaced from its first tag line to the last comment directly under it |
| DesignerRoundTrip.EmitThenRead | apps/wysiwyg-designer/src/template-emit.ts:42-88 | for any object that is printed, with or without copyright lines: reading the emitted text gives what the object coerces to, state or error, exactly when the comment lines left directly under the block are blank, and malformed JSON otherwise |
| DesignerRoundTrip.EmitThenParse | apps/wysiwyg-designer/src/template-emit.ts:42-88 | for a finite state object, the state comes back exactly when those lines are blank |
| DesignerRoundTrip.ReplaceThenParse | apps/wysiwyg-designer/src/template-emit.ts:57-59 | replacing a header in any source that has the tag always parses back to the state |
| DesignerRoundTrip.LastEmitWins | apps/wysiwyg-designer/src/template-emit.ts:42-88 | a second emission is as if the first had not been, exactly when the first wrote no copyright lines and left no comment line directly under its block |
| DesignerRule.RuleHoldsIff | apps/wysiwyg-designer/src/template-emit.ts:39-41 | any source that parses obeys the round-trip rule exactly when it has a header, printed the way its state is printed, trailing white space apart |
| DesignerRule.ParseThenEmitRestores | apps/wysiwyg-designer/src/template-emit.ts:39-41 | an emitted text obeys the rule, exactly or up to trailing white space, exactly when the members of the state object were in the order the parser builds them, none was surplus, and nothing dangled under the block |
| DesignerRule.PageFirstIsReordered | apps/wysiwyg-designer/src/template-emit.ts:39-41 | emitting what was parsed from the header of a page-first state object changes the text, also up to trailing white space |
| DesignerRule.WrittenNumbersDecide | apps/wysiwyg-designer/src/template-emit.ts:39-41 | a header printed but for the way its numbers are written is read or refused as its numbers are finite or not, and obeys the rule exactly when every number is written the way the runtime prints it |
| DesignerRule.WrittenPointZeroIsRewritten | apps/wysiwyg-designer/src/template-emit.ts:39-41 | a header with a margin written 1.0 reads, and emitting what was read changes the text |
| DesignerRoundTrip.OtherLinesKept | apps/wysiwyg-designer/src/template-emit.ts:42-59 | all lines outside the old comment block are kept in order, and only the block is new |
| DesignerRoundTrip.CopyrightRepeats | apps/wysiwyg-designer/src/template-emit.ts:67-73 | a second emission puts the copyright lines in again, so emission settles exactly when there are none and nothing dangles under the block |
| DesignerRoundTrip.UsualCopyrightRepeats | apps/wysiwyg-designer/src/template-emit.ts:67-73 | with the usual copyright line the second emission changes every source |
| DesignerRoundTrip.NewHeaderParses | apps/wysiwyg-designer/src/template-emit.ts:20-33 | a whole new header, with or without copyright lines, parses back to its state |
| DesignerRoundTrip.LicenceLinesBreakInjection | apps/wysiwyg-designer/src/template-emit.ts:50-56 | in a template that starts with the two licence lines the injected header cannot be parsed, and writing it again drops the copyright line |
| CanonicalJson.DumpParses | tools/source-watch-bot/source_watch.py:265-267 | reading the sorted compact dump gives back the value, in both escape modes |
| CanonicalJson.DumpInjective | tools/source-watch-bot/source_watch.py:265-267 | two values have the same dump exactly when they are equal up to key order |
| CanonicalJson.DumpLayout | tools/source-watch-bot/source_watch.py:265-267 | the dump has no blank: items and members joined by commas, members in key order |
| CanonicalJson.LeafDumps | tools/source-watch-bot/source_watch.py:265-267 | literals and numbers are dumped as they are, texts quoted |
| Registry.PayloadLayout | tools/source-watch-bot/source_watch.py:259-267 | the signed payload, member by member, without a blank and with no needless escape |
| CanonicalJson.FindDuplicate | tools/conformance-corpus/validate_fixture_metadata.py:115-121 | the marker loop rejects a list exactly when two items are equal, at the first item that repeats an earlier one |
| Registry.SamePayloadIffSameSignedPart | tools/source-watch-bot/source_watch.py:259-267 | two registries have the same payload exactly when they agree apart from `registry.signature`, a missing table counting as an empty one |
| Registry.SignedRegistryPasses | tools/source-watch-bot/source_watch.py:270-297 | writing the expected signature into a registry leaves its payload as it was and makes the check pass |
| Registry.SignatureFixesRegistry | tools/source-watch-bot/source_watch.py:292-297 | two registries that pass with one signature are equal unless the hash collides on their payloads |
| Registry.SignatureAcceptedIff | tools/source-watch-bot/source_watch.py:286-297 | the signature check passes exactly when the table, the algorithm and the signature over the payload are there |
| Registry.SourceIff | tools/source-watch-bot/source_watch.py:316-355 | a table reads as the source it describes, field by field, and as no other |
| Registry.RefusedBecause | tools/source-watch-bot/source_watch.py:316-343 | why a table is refused: a required text missing, another cadence, an unknown confidence, headers that are no texts |
| Registry.EntriesAre | tools/source-watch-bot/source_watch.py:299-309 | which entries a registry offers, and how one is read or refused |
| Registry.LoadSources | tools/source-watch-bot/source_watch.py:303-313 | the sources load exactly when every entry is well formed and no id repeats, one source per entry in order; otherwise the error is that of the first entry at fault |
| Registry.LoadRegistry | tools/source-watch-bot/source_watch.py:275-313 | loading succeeds exactly when the signature check passes and the sources are good and not empty, and gives the source of every entry; a signature error takes precedence |
| SourceWatch.LocalJsonlSink.AlreadyOpen | tools/source-watch-bot/source_watch.py:125-137 | true exactly when a ledger line has the marker |
| SourceWatch.LocalJsonlSink.OpenIssue | tools/source-watch-bot/source_watch.py:139-143 | appends the issue and nothing else |
| SourceWatch.Compare | tools/source-watch-bot/source_watch.py:542-559 | one fetched source: the status, and exactly the issue that status calls for |
| SourceWatch.RunOnce | tools/source-watch-bot/source_watch.py:518-575 | a pass, completed or stopped after any number of sources: ledger, saved state, events and issues are those of its visits, and the state is saved only when the pass completes |
| WatchHistory.EventsTell | tools/source-watch-bot/source_watch.py:528-568 | event by event: from its entry and the ledger before the pass, and what was fetched, each source gets the one event they call for |
| WatchHistory.IssuesTell | tools/source-watch-bot/source_watch.py:542-559 | a pass opens an issue for a fetched source exactly when its hash differs, or it has no entry and new sources are to be opened, and its marker was not in the ledger |
| WatchHistory.MarkerInjective | tools/source-watch-bot/source_watch.py:441 | a marker determines the source and the hash |
| WatchHistory.NoIssueTwice | tools/source-watch-bot/source_watch.py:518-575 | over every history of completed and aborted passes no two issues share a marker |
| WatchHistory.EveryPersistedChangeIsAnnounced | tools/source-watch-bot/source_watch.py:542-568 | a persisted snapshot that differs from its persisted predecessor has its issue in the ledger, then and ever after |
| WatchHistory.MissKeepsEntry | tools/source-watch-bot/source_watch.py:535-540 | a pass that aborts, does not list the source or fails to fetch it leaves its persisted snapshot alone |
| WatchHistory.ChangeIsDetectedLater | tools/source-watch-bot/source_watch.py:535-568 | after any number of failed fetches and aborted passes, the first completed pass that fetches the source announces the change |
| WatchHistory.NewIssuesHaveCause | tools/source-watch-bot/source_watch.py:542-559 | every issue a pass adds is for a fetched source whose persisted hash differs or, when asked for, is missing, and whose marker was not in the ledger |
| WatchHistory.FlipBackIsSilent | tools/source-watch-bot/source_watch.py:542-568 | in whatever pass a source is visited and found changed, the pass adds an issue with its marker exactly when the ledger had none, and a completed pass records the snapshot either way |
| WatchHistory.FlipBackHappens | tools/source-watch-bot/source_watch.py:542-568 | four passes over one source, text A, B, A, B: the last change is persisted and adds no issue |
| Drift.StripIsJitterFree | tools/sandbox-drift/sandbox_drift.py:237-248 | no jitter key survives at any depth |
| Drift.StripFixesJitterFree | tools/sandbox-drift/sandbox_drift.py:237-248 | stripping changes nothing exactly when there is no jitter key at any depth |
| Drift.StripIdempotent | tools/sandbox-drift/sandbox_drift.py:237-248 | stripping twice is stripping once |
| DriftMeaning.StripKeepsTheRest | tools/sandbox-drift/sandbox_drift.py:237-248 | at every path that meets no jitter key everything stays: leaves, list lengths and all other keys; through a jitter key nothing is left |
| DriftMeaning.StrippedSameIff | tools/sandbox-drift/sandbox_drift.py:237-248 | stripped values are the same exactly when the values are the same away from jitter keys |
| Drift.ComputeDiff | tools/sandbox-drift/sandbox_drift.py:251-274 | the recursive comparison with its loops computes the findings that the lemmas below are about |
| Drift.NoFindingsIffSame | tools/sandbox-drift/sandbox_drift.py:251-274 | there is no finding exactly when the values are equal with their types, both float zeros counting as one and NaN as equal to nothing |
| DriftMeaning.ReportedIff | tools/sandbox-drift/sandbox_drift.py:251-274 | reported are exactly the findings there are: at every place both sides reach and at every key only one side has, with the path of the place |
| DriftMeaning.TypesOfNumbers | tools/sandbox-drift/sandbox_drift.py:252-253 | a number is of type int exactly when its text is digits and minus only |
| DriftMeaning.ReadAt | tools/sandbox-drift/sandbox_drift.py:228-230 | decoding a body changes nothing but the text of numbers, at every place |
| Drift.SwapFlips | tools/sandbox-drift/sandbox_drift.py:251-274 | swapping the sides reports the same paths in the same order with the two sides exchanged |
| DriftCheck.CheckResponses | tools/sandbox-drift/sandbox_drift.py:159-161 | the findings of a gateway are those of the two normalised responses |
| DriftCheck.NoDriftIff | tools/sandbox-drift/sandbox_drift.py:203-274 | no drift exactly when statuses, non-ignored lower-cased header names and decoded, stripped bodies are the same |
| DriftMeaning.NoDriftMeans | tools/sandbox-drift/sandbox_drift.py:203-274 | no drift exactly when statuses are the same, the same headers are there in lower case but for those that vary per call, and the decoded bodies are the same away from jitter keys |
| DriftCheck.SwapReportsSamePlaces | tools/sandbox-drift/sandbox_drift.py:159-171 | exchanging cassette and live response reports the same list of paths |
| Reachability.EnqueueChildren | tools/cii-coverage/generate_coverage.py:92-95 | enqueuing a type's children, with duplicates, finds every table type among them and keeps the waiting types nearest first |
| Reachability.LocalTypeIsNamed | tools/cii-coverage/generate_coverage.py:48-51 | the local name is the one the type text names, behind its last colon or without one; edges are stated by that |
| Reachability.ReachableTypes | tools/cii-coverage/generate_coverage.py:80-96 | the walk stops and returns each reachable table type exactly once, nothing else, and nothing later that is nearer than something earlier |
| Reachability.DistancesAscend | tools/cii-coverage/generate_coverage.py:80-96 | the returned list is in non-decreasing shortest-path distance |
| CoverageRows.Generate | tools/cii-coverage/generate_coverage.py:406-433 | succeeds exactly when every element of every reachable type gets a known class; then the rows are those of the reachable types in order, with cardinality and decision, and the counts are those of the classes, adding up to the total, and the two sizes |
| CoverageRows.CountsAddUp | tools/cii-coverage/generate_coverage.py:428-430 | counting by class loses no row and counts none twice |
| CoverageRows.RowsCoverElements | tools/cii-coverage/generate_coverage.py:410-426 | a row is there exactly for the elements of the listed types |
| CoverageRows.RowIs | tools/cii-coverage/generate_coverage.py:412-423 | what a row says of its element: declaring type, name, type text, cardinality with both bounds in order, and the decision for its local type |
| CoverageRows.RowsInOrder | tools/cii-coverage/generate_coverage.py:408-423 | every row stands where its type, and within it its element, comes |
| DepthTree.WorkspaceDependencyPaths | tools/release-checks/verify_release_checks.py:152-169 | the stack loop computes the scan that the lemma below inverts |
| DepthTree.LineMatches | tools/release-checks/verify_release_checks.py:50 | a printed line is matched and gives back its depth and package |
| DepthTree.MatchIsCut | tools/release-checks/verify_release_checks.py:50 | a match cuts the line into as many digits as can be, a package name, white space and a version |
| DepthTree.MatchesIff | tools/release-checks/verify_release_checks.py:50 | a line matches exactly when it can be cut so |
| DepthTree.LineTells | tools/release-checks/verify_release_checks.py:156-167 | any line: the stack is cut at the depth and grows by the package, and a workspace package adds the stack as a path |
| DepthTree.ScanInvertsListing | tools/release-checks/verify_release_checks.py:152-169 | for every forest, the scan of its depth-numbered preorder listing returns exactly the root-to-node paths of the workspace packages, in preorder |
| WaiverScope.CheckConfigs | tools/release-checks/verify_release_checks.py:177-187 | silent exactly when every config file is there and names every advisory; the messages are exactly those about a missing file or advisory |
| WaiverScope.CheckPaths | tools/release-checks/verify_release_checks.py:197-222 | silent exactly when there is a path and every path ends in an allowed crate and contains every required one; the messages are exactly those there are to give |
| WaiverScope.CheckAdvisoryWaiverScope | tools/release-checks/verify_release_checks.py:172-224 | silent exactly when the configs are in order and every waiver's tree command succeeds with its scope holding; the messages are exactly those of the configs and the waivers |
| WaiverScope.SilenceMeansScope | tools/release-checks/verify_release_checks.py:152-224 | seen from the displayed tree: the scope holds exactly when some root path reaches a workspace package and each one that does ends in an allowed crate and passes through all required ones |
| MetadataSchema.ComplaintIsJustified | tools/conformance-corpus/validate_fixture_metadata.py:56-152 | every complaint carries the path of a place the schema leads to, and is what the schema of that place says against the value there |
| MetadataSchema.SilenceReaches | tools/conformance-corpus/validate_fixture_metadata.py:56-152 | when the validator accepts a value, no schema about any place it leads to, however deep, objects to that place |
| MetadataSchema.AcceptedIffNothingReachableViolates | tools/conformance-corpus/validate_fixture_metadata.py:56-152 | a value is accepted exactly when at every place the schema leads to the schema of that place has nothing against the value there |
| MetadataSchema.AcceptedIffSatisfied | tools/conformance-corpus/validate_fixture_metadata.py:56-152 | a value is accepted exactly when every place the schema leads to satisfies constant, enumeration, type, lengths, pattern, format, uniqueness, keys and minimum as they are written there |
| MetadataSchema.ComplaintIsTrue | tools/conformance-corpus/validate_fixture_metadata.py:56-152 | what a complaint says is true of a place the schema leads to, at the path it carries |
| MetadataSchema.WholeNumberReads | tools/conformance-corpus/validate_fixture_metadata.py:149-152 | the minimum is compared with the number the text writes |
| MetadataSchema.AcceptedObjectKeys | tools/conformance-corpus/validate_fixture_metadata.py:93-107 | an accepted object has every required key, and if the schema is closed no key that is not declared |
| MetadataSchema.AcceptedUniqueItems | tools/conformance-corpus/validate_fixture_metadata.py:110-126 | no two items of an accepted array with unique items are equal |
| FixtureCorpus.ValidateReference | tools/conformance-corpus/validate_fixture_metadata.py:205-223 | an optional reference passes exactly when it is absent, or stays inside its directory and names a file |
| FixtureCorpus.ValidateMetadataFile | tools/conformance-corpus/validate_fixture_metadata.py:170-195 | a metadata file passes exactly when it decodes and its artifact is contained, present, and of the declared size and hash, and its references are in order |
| FixtureCorpus.MetadataOkMeans | tools/conformance-corpus/validate_fixture_metadata.py:170-223 | in order means: every path the metadata names stays inside the directory and is there, and the artifact has the declared size and hash |
| FixtureCorpus.PartsAre | tools/conformance-corpus/validate_fixture_metadata.py:198-202 | the components of a path, slash by slash |
| FixtureCorpus.SuffixIs | tools/conformance-corpus/validate_fixture_metadata.py:254-266 | the suffix of a name is its last dot and what follows, unless that dot is the first or last character |
| FixtureCorpus.ContainedIff | tools/conformance-corpus/validate_fixture_metadata.py:198-202 | a path stays inside exactly when it does not start at the root and no component climbs |
| FixtureCorpus.ArtifactIff | tools/conformance-corpus/validate_fixture_metadata.py:254-266 | which files are artifacts, by name, directory and suffix |
| FixtureCorpus.CollectReferencePaths | tools/conformance-corpus/validate_fixture_metadata.py:244-251 | the collected paths are exactly those some metadata file refers to |
| FixtureCorpus.ValidateCoverage | tools/conformance-corpus/validate_fixture_metadata.py:226-241 | coverage passes exactly when every artifact is referred to or declared by its own directory's metadata |
| FixtureCorpus.CoverageMeans | tools/conformance-corpus/validate_fixture_metadata.py:226-251 | covered means named: as a reference by some metadata file, or as the artifact of the metadata beside it |
| FixtureCorpus.ValidateFiles | tools/conformance-corpus/validate_fixture_metadata.py:336-347 | the file loop passes exactly when every metadata file does and no two share an id |
| FixtureCorpus.ValidateAll | tools/conformance-corpus/validate_fixture_metadata.py:331-349 | the corpus is accepted exactly when there is a metadata file, all pass, ids are distinct and every artifact is covered; otherwise the error is true of the corpus |
| FixtureCorpus.OneUnreferencedArtifactPerDirectory | tools/conformance-corpus/validate_fixture_metadata.py:226-241 | no directory of an accepted corpus has two artifacts that nothing refers to |
| FixtureCorpus.UnreferencedArtifactIsIntact | tools/conformance-corpus/validate_fixture_metadata.py:170-241 | such an artifact has the size and hash its directory's metadata declares |
| LicenseHeader.SourceFile.Fix | tools/license-header/check_headers.py:108-137 | the file becomes the fixed one, as reading and writing with newline translation leave it, and is reported modified exactly when its header was not in order |
| LicenseHeader.ClassifyIs | tools/license-header/check_headers.py:78-88 | when a text passes and what is missing otherwise, by its first two lines |
| LicenseHeader.StripIs | tools/license-header/check_headers.py:78-88 | stripping takes white space off both ends and leaves the rest |
| LicenseHeader.FixPutsIn | tools/license-header/check_headers.py:91-135 | just what is put in: the whole header, or the copyright line in second place and a blank line before text |
| LicenseHeader.LinesAre | tools/license-header/check_headers.py:124 | the lines of a text are together the text, broken only at their ends |
| LicenseHeader.UniversalIs | tools/license-header/check_headers.py:114 | reading makes one newline of each line end and leaves everything else |
| LicenseHeader.HeaderMakesOk | tools/license-header/check_headers.py:91-123 | putting the header in front makes any text acceptable |
| LicenseHeader.RunTogetherIsMissing | tools/license-header/check_headers.py:124-135 | a licence line without a line break at its end runs into the inserted line and is no licence line any more |
| LicenseHeader.FileSettles | tools/license-header/check_headers.py:108-137 | one run puts a file in order, and a second, in whatever year, changes nothing, exactly outside that case; two runs always suffice |
| LicenseHeader.BareLicenceLineNeedsBreak | tools/license-header/check_headers.py:124-135 | a file that holds the bare licence line is that case |
| LicenseHeader.FileLinesSurvive | tools/license-header/check_headers.py:114-136 | outside that case the original lines, as read, survive in order around at most three new ones; a file that is written has newlines only, one in order is untouched |

## Left out

- HTTP framing, routing, status codes and headers of the REST shim; lock poisoning, which needs a panic inside a map insertion.
- The engine, document revalidation, PDF rendering, bundle packing and BLAKE3: parameters of the store.
- JSON pointers other than a plain name after `#/$defs/` or `#/components/schemas/`: escaped tokens, pointers into a definition, and a bare `#`, which hoisting does not rewrite.
- SchemaMeaning.RewriteKeepsMeaning: every text `$ref` counts as a reference, also inside `const`, `enum`, `default` and `examples`, where the source rewrites data.
- SchemaHoist.RewriteSchemaRefs: the source rewrites the JSON value in place; the model returns the rewritten value, so aliasing of the tree is not captured.
- The query filters of the capability endpoint apart from the validity window: one equality test each.
- Money.SummaryAddsUp: covers lines without a price of their own; the rescaling of a sub-unit price text goes through floating point and is a parameter.
- The Chargebee and Lago copies of the date and money helpers, textual duplicates of those modelled.
- The remaining fields of `buildCommercialDocument`: required strings, currency and country patterns, default line ids, the party objects.
- What a runtime makes of a number text: a parameter of the designer's parser and of the drift canary.
- DesignerRoundTrip.EmitThenRead: asks for copyright lines of one line each without the header tag.
- LicenseHeader.SourceFile.Fix: the file is written where a newline needs no translation; where the system's line end is `\r\n` the write puts it in.
- Lone surrogates in strings, which Dafny characters cannot be.
- The body text of source-watch issues (diff preview, labels) and the GitHub, Beads and dry-run sinks, which may report an open issue as absent.
- Blank and malformed lines of the issue ledger, which the sink skips.
- TOML decoding and the fetching of sources; their outcomes are inputs.
- The wording of messages: findings, messages and errors are data.
- Reading cassette and request files and the credential check of the drift canary.
- Lower-casing of header names beyond ASCII.
- XML parsing of the schema files and the table of classification decisions, which is a parameter.
- Source hashes, percentages and named decisions of the coverage artifact.
- Subtrees that `cargo tree` replaces by a repetition mark: the results speak of the displayed tree.
- White space other than blanks and tabs inside a listing line.
- The publication policy, and decoding: they enter the corpus loop as whether a metadata file decodes.
- Python's `==`, `re.fullmatch` and the date and URI format checks of the metadata validator are parameters, and schema keywords are taken as already typed.
- Symbolic links in the corpus, and file-system order: the model validates files in any order, so which of several errors is reported is left open.
- Non-ASCII decimal digits in a copyright year.
- Scanning directories for source files and skipping generated ones.
- Decimal arithmetic: the multiplication that may overflow is a parameter of the allocation, and the parts are exact decimals.
- Money other than `allocate`: one checked operation each.
- Canonical XML apart from attribute prefixes: parsing, element names, escaping; the scope of rendered prefixes is a parameter, the same in both passes, and suffixes are unbounded where the source counts in 32 bits.
