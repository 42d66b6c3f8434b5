# kicad2bom core, in Dafny

kicad2bom reads KiCad (version 5, `.sch`) schematic files and writes a bill
of materials. Each schematic symbol sits between a `$Comp` line and an
`$EndComp` line. Inside that block, an `L` line names the library part, and
`F 0` … `F 3` lines hold the reference designator, value, footprint and
datasheet/vendor url. The program works as a pipeline over a list of
component records:

1. **Tokenizer** (`tokenizer.dfy`): `split`, a space tokenizer that keeps
   double-quoted text together.
2. **Parser** (`parser.dfy`): the `$Comp`/`$EndComp` state machine, run over
   the stripped lines of each schematic, with that file's name and
   multiplier.
3. **Suppliers** (`suppliers.dfy`): derives `supplier` and `supplier_ref`
   from a farnell, mouser or digikey url. The url is given already split
   into netloc, path and query.
4. **Filtering** (`filter.dfy`): drops power symbols (`#` refs),
   placeholder urls, and records outside the case-insensitive
   comma-separated allow lists.
5. **Sorting** (`natural.dfy`, `sort.dfy`): a stable multi-key sort.
   `ref`, `value` and `supplier_ref` use natural order, so R1 < R2 < R10.
   An unknown field name is an error.
6. **Cart** (`cart.dfy`): groups records by supplier. It merges records
   with the same supplier reference and adds up their multipliers into a
   quantity.

`records.dfy` holds the component record and its eight field names.
`strings.dfy` holds the string operations the program borrows from Python:
`str.split` with a one-character separator, `split(sep)[-1]` with a longer
separator, `lower` and `startswith`. `AfterLast` takes the text after the
rightmost occurrence of `sep`. That equals Python's `split(sep)[-1]` when
`sep` has no border (no proper prefix that is also a suffix), as for
"virtualkey" (`Suppliers.VirtualKeyNoBorder`). For a separator with a
border, such as "aa" in "aaa", Python splits at the leftmost occurrences
and the two can differ. `wrappers.dfy` holds `Option` and `Result`.

Each stage that the program writes as a loop is a method with loop
invariants. Each such method is proved equal to a specification function:
a left fold over the input for the tokenizer, the parser, enrichment, the
filter and the cart, and a recursion over the sort fields (`MultiPass`),
one stable pass per field, for the sort. The properties of each stage are
lemmas about those functions.

For a mouser url whose path has neither known shape, the code sets
`supplier` to "mouser" and leaves `supplier_ref` untouched
(kicad2bom.py:157-162; `Suppliers.MouserOtherPath`).

## Model

| member | source | states |
|---|---|---|
| Tokenizer.Split | kicad2bom.py:53-72 | the character loop with its `inText`/`multispace` flags computes exactly `Tokens(line)` |
| Tokenizer.Step | kicad2bom.py:59-69 | one character emits at most the pending token and never removes an emitted one, adds at most one token to the emitted-plus-pending count, and flips the quote flag exactly on `"` |
| Tokenizer.Run | kicad2bom.py:58-69 | over any text, emitted tokens are only ever added to, and at most one token per character |
| Tokenizer.Tokens | kicad2bom.py:53-72 | `split` returns at most as many tokens as the line has characters |
| Tokenizer.TokensContent | kicad2bom.py:53-72 | no token contains `"`, and the tokens concatenated are the line without its quotes and without the spaces outside quotes |
| Tokenizer.RunTracksQuotes | kicad2bom.py:64-65 | after any prefix, the scanner is inside quotes exactly when that prefix holds an odd number of `"`, the emitted tokens followed by the pending text are the prefix's kept characters, and none of them holds a `"` |
| Tokenizer.RunAppend | kicad2bom.py:58-69 | scanning `a + b` is scanning `a`, then `b` from the state reached |
| Tokenizer.SpacesCollapse | kicad2bom.py:59-63 | outside quotes, a run of two spaces splits like one space, so a run of spaces never creates an empty token |
| Tokenizer.RunNoEmpty | kicad2bom.py:59-71 | without quotes or a leading space, no emitted token is empty, and the pending text is empty only on empty input or right after a space |
| Tokenizer.NoEmptyTokens | kicad2bom.py:70-71 | with no quotes and no leading space, no token is empty, so an empty trailing accumulator is never emitted |
| Tokenizer.LeadingSpace | kicad2bom.py:59-62 | a leading space emits an empty first token: `" R1"` gives `["", "R1"]` |
| Tokenizer.RunInsideQuotes | kicad2bom.py:59-69 | inside quotes, text without `"` (spaces included) is appended to the current token |
| Tokenizer.UnclosedQuote | kicad2bom.py:64-72 | after an unbalanced quote, the whole rest of the line, spaces included, ends up in the last token |
| Tokenizer.RunPlain | kicad2bom.py:67-69 | a text without spaces or quotes is appended to the pending token |
| Tokenizer.RunWord | kicad2bom.py:59-69 | one bare or quoted word, scanned from a fresh token, leaves exactly its text pending |
| Tokenizer.RenderRun | kicad2bom.py:53-69 | scanning words joined by single spaces emits every word's text but the last, which is left pending |
| Tokenizer.RenderTokens | kicad2bom.py:53-72 | round trip: splitting words written with single spaces (quoted ones between `"`, empty `""` included) gives back their texts, provided the last word is not an empty quoted text, which `split` drops |
| Tokenizer.SplitExample | kicad2bom.py:51-52 | `F 1 "100nF 50V" H 5150 1125` splits into `F`, `1`, `100nF 50V`, `H`, `5150`, `1125` |
| Tokenizer.ExampleRender | kicad2bom.py:52 | the example line is the rendering of its six words |
| Tokenizer.ExampleRenderHead | kicad2bom.py:52 | the example line begins with `F 1 "100nF 50V"`, the rendering of its first three words |
| Tokenizer.ExampleTexts | kicad2bom.py:52 | the example's six expected tokens are the texts of those words |
| Records.Fresh | kicad2bom.py:125-130 | a record opened by `$Comp` has every field "" except the schematic name, and carries the file's multiplier |
| Records.FieldNamesRoundTrip | kicad2bom.py:47 | every field's name is one of the eight names, and looking it up gives the field back |
| Records.FieldNamedMeaning | kicad2bom.py:47 | a name is accepted exactly when it is one of the eight field names, and is then that field's name |
| Parser.Step | kicad2bom.py:124-147 | one stripped line keeps "inside a block implies an open record" |
| Parser.Run | kicad2bom.py:123-147 | the fold over the lines keeps that invariant |
| Parser.ParseFile | kicad2bom.py:121-147 | the per-file loop, splitting each block line with `Tokenizer.Split`, computes exactly `Parse`, error included |
| Parser.ErrorPersists | kicad2bom.py:133-147 | once a line raises, the rest of the file is not read and the error is the result |
| Parser.RunRecords | kicad2bom.py:125-134 | every `$EndComp` appends exactly one record, and the open record and all appended ones carry the file's name and multiplier and no supplier data |
| Parser.ParsedRecords | kicad2bom.py:121-147 | a file yields one record per `$EndComp` line (so records appear only on `$EndComp`), each with the file's name and multiplier and empty supplier fields |
| Parser.ApplyDispatch | kicad2bom.py:137-147 | an `L` line sets `name` to token 1, an `F 0..3` line sets ref, value, footprint or url to token 2, any other line changes nothing, and the multiplier is kept |
| Parser.BuildFields | kicad2bom.py:125-147 | a sealed record holds the file's name, its multiplier and, for every other field, the value given by the block's last line that sets it, or "" if none does |
| Parser.RunAppend | kicad2bom.py:123 | parsing `a + b` is parsing `a`, then `b` from the state reached |
| Parser.RunOutside | kicad2bom.py:125-135 | outside a block, lines other than the two markers change nothing |
| Parser.RunInside | kicad2bom.py:135-147 | inside a block, body lines update only the open record |
| Parser.RunBlock | kicad2bom.py:125-134 | a block (stray lines, `$Comp`, body, `$EndComp`) appends its built record |
| Parser.RunBlocks | kicad2bom.py:121-147 | a sequence of blocks leaves exactly their built records |
| Parser.ParseBlocks | kicad2bom.py:121-147 | round trip: parsing rendered blocks gives their records in order, and a trailing unterminated block adds nothing |
| Parser.StrayEndComp | kicad2bom.py:132-134 | a second `$EndComp` after a block appends a copy of the last record again |
| Parser.StrayEndCompRepeats | kicad2bom.py:121-134 | after any non-empty sequence of blocks, a stray `$EndComp` appends a copy of the last built record |
| Parser.BuildsLength | kicad2bom.py:132-134 | well-formed blocks build one record each |
| Parser.TooShort | kicad2bom.py:136-147 | a line with no token always raises, and one with three tokens or more never does |
| Parser.Apply | kicad2bom.py:137-147 | a body line never changes the schematic name, the multiplier or the supplier fields, and a line that is neither `L` nor `F` changes nothing |
| Parser.EndCompFirst | kicad2bom.py:132-134 | in any file, an `$EndComp` with no `$Comp` before it raises, whatever follows |
| Parser.EmptyLineInBlock | kicad2bom.py:135-137 | in any file, an empty line inside a block raises, whatever follows |
| Parser.Raises | kicad2bom.py:133-137 | the smallest instances: `["$EndComp"]` and `["$Comp", ""]` raise |
| Parser.ParseAll | kicad2bom.py:107-148 | the loop over the schematics concatenates each file's records in order, and stops at the first error |
| Parser.FilesErrorPersists | kicad2bom.py:107-148 | an error in one file is the result of the whole parse |
| Parser.FilesRecords | kicad2bom.py:107-148 | every parsed record carries the name and multiplier of one of the files |
| Suppliers.Classify | kicad2bom.py:154-165 | the url is unclassified exactly when its host names none of farnell, mouser and digikey; a classified supplier is one of the three and is named in the host; it fails exactly when the host names digikey but neither farnell nor mouser and the path has no `/` |
| Suppliers.Enrich | kicad2bom.py:151-165 | only `supplier` and `supplier_ref` can change; a url not starting with "http", or with no known host, leaves the record unchanged; it fails exactly on an http url whose host names digikey but neither farnell nor mouser and whose path has no `/` |
| Suppliers.EnrichAll | kicad2bom.py:151-165 | the in-place loop leaves the array equal to `EnrichSeq` of its old contents, or returns that fold's error |
| Suppliers.EnrichOne | kicad2bom.py:152-165 | the body of the pass for one record computes exactly `Enrich` |
| Suppliers.EnrichSeqStep | kicad2bom.py:151-165 | one more record extends the pass by its own enrichment, or fails with its error |
| Suppliers.EnrichErrorPersists | kicad2bom.py:151-165 | once a record fails, the whole pass fails with that error |
| Suppliers.EnrichClassified | kicad2bom.py:152-165 | for an http url, a classified result is written into `supplier`, and `supplier_ref` is written when one is found |
| Suppliers.EnrichSeq | kicad2bom.py:151-165 | a pass that does not raise returns one record per input record |
| Suppliers.EnrichSeqPointwise | kicad2bom.py:151-165 | the pass keeps the length and enriches each record on its own; it fails exactly when some record fails |
| Suppliers.SecondToLastPiece | kicad2bom.py:162-165 | `pieces[-2]` raises exactly when there are fewer than two pieces, and is otherwise one of the pieces |
| Suppliers.LastPieceOfPath | kicad2bom.py:156 | `split("/")[-1]` of `p/ref` is `ref` |
| Suppliers.SecondToLastOfPath | kicad2bom.py:162-165 | `split("/")[-2]` of `p/ref/tail` is `ref` |
| Suppliers.FarnellReference | kicad2bom.py:154-156 | a farnell url's reference is the last path segment |
| Suppliers.DigikeyReference | kicad2bom.py:163-165 | a digikey url's reference is the second-to-last path segment, and a path without `/` raises |
| Suppliers.VirtualKeyNoBorder | kicad2bom.py:160 | "virtualkey" has no proper prefix that is also a suffix |
| Suppliers.MouserSearchReference | kicad2bom.py:159-160 | on the `/search/ProductDetail.aspx` path, the reference is the query text after its last "virtualkey" |
| Suppliers.MouserProductReference | kicad2bom.py:161-162 | on any path that starts with `/ProductDetail/` and ends in `…/ref/tail`, the reference is the second-to-last segment `ref` |
| Suppliers.MouserOtherPath | kicad2bom.py:157-162 | any other mouser path sets `supplier` to "mouser" and changes nothing else |
| Suppliers.FarnellExample | kicad2bom.py:154-156 | `fr.farnell.com/search/abc123` gives farnell, `abc123` |
| Filtering.FilterComponents | kicad2bom.py:168-183 | the filter loop, with its `keep` flag and its loop over the six list options, computes exactly `Selected` |
| Filtering.Keep | kicad2bom.py:171-181 | a record is kept exactly when it passes the `#`, `unspecified` and `all` tests and the allow-list of each of the six option fields |
| Filtering.Selected | kicad2bom.py:168-183 | the filter never adds records |
| Filtering.ListedFieldsCover | kicad2bom.py:178-181 | the six option fields are checked, and only they are |
| Filtering.SelectedAppend | kicad2bom.py:170-183 | each record is kept or dropped on its own, so filtering distributes over concatenation |
| Filtering.SelectedStep | kicad2bom.py:170-183 | one more input record is appended to the output exactly when it passes every test |
| Filtering.SelectedIff | kicad2bom.py:170-183 | a record is in the output exactly when it is in the input and passes every test |
| Filtering.SelectedMembers | kicad2bom.py:171-181 | no kept ref starts with `#`; with `unspecified` every kept url is ""; without `all` no kept url has length 1; every kept value is in its allow list |
| Filtering.SelectedAll | kicad2bom.py:168-183 | when every record passes, the output is the input unchanged and in the same order |
| Filtering.SelectedIdempotent | kicad2bom.py:168-183 | filtering twice is filtering once |
| Filtering.NoOptions | kicad2bom.py:171-181 | with no options, only `#` refs and 1-character urls are dropped |
| Filtering.UnspecifiedAndAll | kicad2bom.py:174-177 | with `unspecified`, only records with no url are kept, and `all` then makes no difference |
| Filtering.AllowListMembers | kicad2bom.py:180 | a value passes a comma-joined list exactly when it equals one of its entries, ignoring case |
| Filtering.AllowListIgnoresCase | kicad2bom.py:180 | two values equal up to case pass the same lists |
| NaturalOrder.Extend | kicad2bom.py:199-200 | appending a character keeps the key alternating text, number, text |
| NaturalOrder.NaturalKey | kicad2bom.py:199-200 | the key of a string alternates lower-cased text and digit-run numbers, starting and ending with text, like `re.split('([0-9]+)')` |
| NaturalOrder.NaturalKeyAppendRun | kicad2bom.py:199-200 | appending a digit run and then digit-free text to a string that does not end in a digit appends one number (the run's value) and one lower-cased text to its key, so a key is built run by run for any number of runs |
| NaturalOrder.KeyAppendDigits | kicad2bom.py:199-200 | appending a digit run to a string that does not end in a digit appends its value and an empty text to the key |
| NaturalOrder.KeyAppendText | kicad2bom.py:199-200 | appending digit-free text extends the key's last text by its lower-cased form |
| NaturalOrder.KeyTextAfterNumber | kicad2bom.py:199-200 | digit-free text after a number becomes the text that follows it in the key |
| NaturalOrder.StrLessIrreflexive | kicad2bom.py:206 | string order is irreflexive |
| NaturalOrder.StrLessTransitive | kicad2bom.py:206 | string order is transitive |
| NaturalOrder.StrLessTotal | kicad2bom.py:206 | string order is total |
| NaturalOrder.ChunkLessIrreflexive | kicad2bom.py:204 | chunk order is irreflexive |
| NaturalOrder.ChunkLessTransitive | kicad2bom.py:204 | chunk order is transitive |
| NaturalOrder.ChunkLessTotal | kicad2bom.py:204 | chunk order is total |
| NaturalOrder.KeyLessIrreflexive | kicad2bom.py:204 | key order is irreflexive |
| NaturalOrder.KeyLessTransitive | kicad2bom.py:204 | key order is transitive |
| NaturalOrder.KeyLessTotal | kicad2bom.py:204 | key order is total |
| NaturalOrder.KeyOfText | kicad2bom.py:199-200 | a digit-free string's key is its lower-cased text alone |
| NaturalOrder.KeyOfTextNumber | kicad2bom.py:199-200 | text followed by digits gives text, number, empty text, as `re.split` does |
| NaturalOrder.NumbersCompareByValue | kicad2bom.py:199-204 | designators with the same prefix compare by the numeric value of their digits |
| NaturalOrder.KeyIgnoresCase | kicad2bom.py:199 | the key ignores letter case |
| NaturalOrder.DesignatorOrder | kicad2bom.py:199-204 | R1 < R2 < R10 in natural order, while plain string order puts R10 before R2 |
| Sorting.Keys | kicad2bom.py:202-206 | a record's key has one component per sort field |
| Sorting.KeysLessIrreflexive | kicad2bom.py:201-206 | the order by field list is irreflexive |
| Sorting.KeysLessTransitive | kicad2bom.py:201-206 | the order by field list is transitive |
| Sorting.KeysLessTotal | kicad2bom.py:201-206 | the order by field list is total on keys |
| Sorting.NotBeforeTransitive | kicad2bom.py:201-206 | "not before" is transitive |
| Sorting.Insert | kicad2bom.py:204-206 | inserting a record lengthens the list by one |
| Sorting.SortKeys | kicad2bom.py:204-206 | a sort pass keeps the number of records |
| Sorting.InsertMultiset | kicad2bom.py:204-206 | inserting a record adds exactly that record |
| Sorting.InsertSorted | kicad2bom.py:204-206 | inserting into a sorted list keeps it sorted |
| Sorting.InsertBelow | kicad2bom.py:204-206 | inserting a record that sorts before a list's last record into the rest of that list leaves a list the last record is before no member of |
| Sorting.AppendSorted | kicad2bom.py:204-206 | appending a record no earlier record follows keeps a list sorted |
| Sorting.InsertClass | kicad2bom.py:204-206 | insertion puts the record after all records with its key, so equal keys keep their order |
| Sorting.SwapLast | kicad2bom.py:204-206 | a record that sorts before another never shares its key, so swapping the two changes no key class |
| Sorting.SortKeysProperties | kicad2bom.py:204-206 | a sort pass gives a sorted permutation in which records with equal keys keep their input order |
| Sorting.SortKeysSorted | kicad2bom.py:204-206 | a sort pass gives a list sorted by its key |
| Sorting.SortKeysMultiset | kicad2bom.py:204-206 | a sort pass gives a permutation of its input |
| Sorting.SortKeysClass | kicad2bom.py:204-206 | a sort pass keeps the input order of the records with any one key |
| Sorting.ClassMembers | kicad2bom.py:201-206 | the records with key t are those of the list whose key is t |
| Sorting.LastNotBefore | kicad2bom.py:201-206 | in a sorted list, the last record is before no record of the list |
| Sorting.NoRecordNoClass | kicad2bom.py:201-206 | an empty list and a non-empty one differ on some key class |
| Sorting.SortedUnique | kicad2bom.py:201-206 | two sorted lists with the same records in the same order within every key are equal, so a stable sort has one result |
| Sorting.SameLastKey | kicad2bom.py:201-206 | two such lists end with records of the same key |
| Sorting.DropLast | kicad2bom.py:201-206 | two such lists end with the same record, and the rest agree on every key class |
| Sorting.KeysCons | kicad2bom.py:201-206 | a key over a field list is the primary field's key followed by the rest |
| Sorting.ClassPositions | kicad2bom.py:201-206 | two records of a key class keep their relative position in it |
| Sorting.ClassSorted | kicad2bom.py:201-206 | every key class of a list sorted by some fields is itself sorted by those fields |
| Sorting.RadixStep | kicad2bom.py:201-206 | a stable pass on the primary field over a list sorted by the remaining fields sorts by the whole field list |
| Sorting.ClassOfLength | kicad2bom.py:201-206 | a key of the wrong length has no records |
| Sorting.KeysMatch | kicad2bom.py:201-206 | a full key matches exactly when its primary and remaining parts do |
| Sorting.ClassNested | kicad2bom.py:201-206 | a key class is the primary class within the class of the remaining fields |
| Sorting.ClassNestedOuter | kicad2bom.py:201-206 | a key class is the remaining-fields class within the primary class |
| Sorting.ClassSnoc | kicad2bom.py:201-206 | appending a record extends only its own key class |
| Sorting.MultiPass | kicad2bom.py:201-206 | the passes keep the number of records |
| Sorting.MultiPassProperties | kicad2bom.py:201-206 | the passes in reversed field order give a list sorted by the field list, primary field first, with equal-key records in input order |
| Sorting.PassKeepsClass | kicad2bom.py:201-206 | a pass on the primary field keeps the order within every full-key class |
| Sorting.MultiPassIsOneSort | kicad2bom.py:201-206 | the passes equal a single stable sort on the whole field list, and are a permutation |
| Sorting.AlreadySorted | kicad2bom.py:201-206 | records already in order are left unchanged, so sorting twice is sorting once |
| Sorting.SortComponents | kicad2bom.py:186-206 | the method checks every field name, then runs one pass per field in reverse, and computes exactly `SortStage` of the split sort order |
| Sorting.NamesErrorPersists | kicad2bom.py:195-198 | the first unknown name stops the check |
| Sorting.FieldsNamedOk | kicad2bom.py:195-198 | the names are accepted exactly when each is a field name, and then map to those fields in order |
| Sorting.FieldsNamedErr | kicad2bom.py:195-198 | a rejected list reports its first name that is not a field name, every earlier name being a field name |
| Sorting.SortStageMeaning | kicad2bom.py:195-206 | on success the result is a sorted permutation equal to one stable sort on the named fields |
| Sorting.TwoNames | kicad2bom.py:194 | `a,b` splits into `a` and `b` |
| Sorting.TwoFields | kicad2bom.py:195-198 | two valid names map to their two fields |
| Sorting.DefaultListingOrder | kicad2bom.py:186-191 | without `--sort`, a listing sorts by schematic, then ref |
| Sorting.DefaultCartOrder | kicad2bom.py:186-189 | without `--sort`, a cart sorts by ref, then value |
| Sorting.ByReference | kicad2bom.py:203-204 | R1 sorts before R2 and R2 before R10 by ref |
| Sorting.SortByReference | kicad2bom.py:201-204 | sorting R10, R2, R1 by ref gives R1, R2, R10 |
| Cart.RefsOf | kicad2bom.py:274 | the list of supplier refs of a group, one per line, in order |
| Cart.IndexOf | kicad2bom.py:281 | `index` finds the first position of a present ref |
| Cart.Merge | kicad2bom.py:274-281 | a record whose ref is already in its supplier's group adds no line, and one with a new ref adds exactly one |
| Cart.CartOf | kicad2bom.py:268-281 | every supplier in the cart has at least one line |
| Cart.BuildCart | kicad2bom.py:268-281 | the grouping loop computes exactly `CartOf` and the suppliers in the dictionary's insertion order |
| Cart.CartKeys | kicad2bom.py:271-272 | the cart has a group for exactly the suppliers that occur |
| Cart.CartStep | kicad2bom.py:269-281 | one more record adds its own group and supplier entry |
| Cart.FirstMatches | kicad2bom.py:276-279 | the first record for a supplier and ref has that supplier and ref |
| Cart.TotalAbsent | kicad2bom.py:277-281 | the total for a ref that never occurs is 0 |
| Cart.SupplierPresent | kicad2bom.py:271 | a supplier of some record is in the supplier list |
| Cart.EntriesRefs | kicad2bom.py:274-279 | the reference cart lines have the supplier's refs in order of first appearance |
| Cart.EntriesOther | kicad2bom.py:270-281 | a record does not change other suppliers' groups |
| Cart.EntriesNewRef | kicad2bom.py:275-279 | a new ref appends a line for that record with its multiplier as quantity |
| Cart.EntriesSeenRef | kicad2bom.py:280-281 | a seen ref adds the multiplier to that ref's line |
| Cart.RefsDistinct | kicad2bom.py:274-279 | each ref appears at most once per supplier |
| Cart.EntriesStep | kicad2bom.py:269-281 | the reference definition changes as `Merge` does for one more record |
| Cart.CartIsEntries | kicad2bom.py:268-281 | each group lists each ref once, in order of first appearance, with the first record's fields and the sum of the multipliers as qty; supplier "" is its own group |
| Cart.QtyUpdate | kicad2bom.py:281 | adding to one line adds to the group's quantity |
| Cart.QtyMerge | kicad2bom.py:275-281 | merging a record adds its multiplier to the group's quantity |
| Cart.SupplierTotalAbsent | kicad2bom.py:270 | a supplier with no records has total 0 |
| Cart.CartQuantities | kicad2bom.py:268-281 | a group's quantities add up to the multipliers of that supplier's records |
| Cart.SuppliersMeaning | kicad2bom.py:268-272 | the suppliers are exactly those of some record, each listed once |
| Cart.QuantitiesAdd | kicad2bom.py:277-281 | two records with the same supplier and ref and multipliers 2 and 3 give one line with qty 5 |
| Strings.StartsWithMeaning | kicad2bom.py:152 | `startswith` holds exactly when the string is the prefix followed by some text |
| Strings.ContainsMeaning | kicad2bom.py:154-163 | `in` on strings holds exactly when the string is some text, the substring, then some text |
| Strings.Split | kicad2bom.py:156 | `str.split` on one character always gives at least one piece |
| Strings.Lower | kicad2bom.py:180 | `lower` keeps the length and lowers each character |
| Strings.JoinSplit | kicad2bom.py:156 | joining the pieces of a split gives back the string |
| Strings.SplitJoin | kicad2bom.py:180 | splitting joined separator-free pieces gives them back |
| Strings.SplitPiecesFree | kicad2bom.py:156 | no piece of a split contains the separator |
| Strings.SplitAt | kicad2bom.py:156-165 | a split at a separator is the split of each side |
| Strings.SplitCount | kicad2bom.py:162-165 | a split has at least two pieces exactly when the separator occurs, which is when `[-2]` does not raise |
| Strings.AfterLastIsLastPiece | kicad2bom.py:160 | `split(sep)[-1]` is a suffix following an occurrence of `sep` (or the whole string), and contains no `sep` |
| Strings.AfterLastAppend | kicad2bom.py:160 | when `s` ends with `sep` (a separator with no border, like "virtualkey") and `k` contains no `sep`, `split(sep)[-1]` of `s + k` is `k` |
| Strings.LowerJoin | kicad2bom.py:180 | lowering a comma-joined list lowers each entry |
| Strings.LowerAppend | kicad2bom.py:180 | lowering distributes over concatenation |

## Left out

- Command-line parsing and the search for `.sch` files in directories
  (kicad2bom.py:75-104), opening each file and taking its base name
  (kicad2bom.py:109-118), and stripping each line (kicad2bom.py:124): the
  model receives each file's name, its multiplier and its lines, already
  stripped.
- The multiplier list (kicad2bom.py:78-81): parsing it and checking its
  length are argument handling. Each file's multiplier is an input.
- `urlparse`: a url is given to enrichment as a parse function returning
  (netloc, path, query); the parsing itself is library code.
- All output: the field selection and its validation, the text table, the
  CSV writers, the per-supplier cart files and the record count
  (kicad2bom.py:208-323, apart from the cart grouping at 268-281, which is
  modelled). They format records and do no computation the
  model would check.
- Unicode: strings are sequences of characters. `lower` and `isdigit` are
  modelled on ASCII letters and digits only.
- Sorting.SortKeys: Python's `list.sort` is library code. It is modelled as
  a stable insertion sort. The model proves the properties the program
  relies on: sorted, a permutation, and equal keys keep their order.
  Those properties determine the result uniquely (`Sorting.SortedUnique`).
- Suppliers.EnrichAll: on an error, the Python program stops with an
  exception. The contract says nothing about the array's contents after
  an error.
- Parser.ParseFile: the Python exceptions (`AttributeError`, `IndexError`)
  are modelled as two error values and carry no line number or message
  text.
- Sorting.SortComponents: an unknown sort field makes the program print a
  message and exit. The model returns `UnknownField` with the name instead.
