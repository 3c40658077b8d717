# DASI: verified model

A Dafny model of the logic DASI adds on top of its storage library, with proofs. It covers
the C and Python retrieval and listing cursors, keys and queries, the Rucio backend, access
policies, the schema flattener and the forecast example.

| file | part of the system |
|---|---|
| Backend.dfy, Generators.dfy, Cursors.dfy | backend iterators, the C++ generators and iterators, the C cursors, pydasi's listing |
| Protocol.dfy, Retrieval.dfy | the retrieval handle as a state machine over arbitrary call sequences, and the classes that refine it |
| OrderedMap.dfy, Text.dfy, Parsing.dfy | ordered maps and lexicographic order, splitting and joining text, piecewise parsing |
| Keys.dfy, Queries.dfy | `dasi::Key`, `dasi::Query`, their parsers and printers |
| Filenames.dfy, Injectivity.dfy, Archive.dfy, RucioRetrieval.dfy | the Rucio backend: names and when they are unique, archive protocol under faults, skipping retrieval |
| Policy.dfy | `setPolicy`, `queryPolicy` and the policy generator |
| Schema.dfy | `dasi-schema`: rule flattening and query template |
| Forecast.dfy | the forecast loop nest |

Objects whose methods update fields are classes; where a method changes state it is proved
against a function or a state machine, and the properties are lemmas about that.

## Contracts taken from libraries outside the repository

- `DataHandle.read(n)` returns as many bytes as are left, up to n, of all gathered objects in
  order, across object boundaries (tests/c_api/test_c_api_simple_archive.cc:373-389); an
  object's advertised length is the number of bytes its location yields.
- `StringTools::split` and `Tokenizer` cut at every separator. Whether they keep empty pieces is not
  visible, so `keepEmpty` is a parameter and each theorem holds for both answers.
- Streaming a map prints `{k=v,k=v}` (tests/api/test_api_key.cc:46). Strings compare by code unit.
- Rucio's upload under a name already taken never returns a reply: it raises `NoFilesUploaded` or some
  other exception, and stores nothing. Under a free name it may end in any way, `NoFilesUploaded`
  (nothing stored) included; an accepted reply means the name is registered, and an upload that fails
  otherwise may or may not have registered it. One metadata call sets one attribute or raises.
- FDB's `control` adds or removes the given identifiers on exactly the databases the request selects,
  and `status` and `control` deliver the selected databases in order.

## Where the code does not do what one might expect

- `examples/weather/mean.c` asks for attributes and data before its first `dasi_retrieve_next`:
  `Protocol.DoWhileIsOneOff` follows all its rounds over any results. It makes none if the first object is
  empty, otherwise one more than there are objects before the first empty one, and from the second round
  on each reads from behind the start of the object it reports.
- Archive file names do not determine the key. `Injectivity.InjectiveIffReadable` gives the exact
  condition on what keywords and values may contain: nothing that sanitising changes, and either no '-' in
  keywords and no '_' in values, or no '_' in keywords and no '-' in values.
- `archive` returns normally although nothing was stored exactly when the client reports
  `NoFilesUploaded` for a free name (`Archive.SilentLoss`); and repeating a call never completes
  an entry whose upload registered the name and then failed, or whose metadata failed, although it
  returns normally (`Archive.RetryDoesNotRepair`, with the exact condition for the entry to be complete).
- The forecast example silently overwrites fields beyond the reach of its 5-byte buffer;
  `Forecast.KeysDistinctIffWithinBuffer` gives the exact bound.
- `queryPolicy` with its default empty name reports everything only if the tokenizer drops
  empty pieces (`Policy.EmptyNameSelectsAll`).
- A query keyword without values does not survive the request text (`Queries.EmptyListDoesNotRoundTrip`).

## Model

| member | source | states |
|---|---|---|
| Backend.ElementDescribes | src/impl/ListGeneratorImpl.cc:22-28 | an element has its object's own timestamp, location, offset and length, and its key holds each stored keyword with its last value and no other |
| Backend.ObjectInStream | src/impl/RetrieveResultImpl.cc:57-66 | in the concatenation, object k lies exactly between the sums of the lengths before and up to it |
| Generators.LazyGenerator.constructor | src/impl/ListGeneratorImpl.cc:15-17 | after construction the generator stands on the first element, already fetched, or is done on an empty backend |
| Generators.LazyGenerator.Next | src/impl/ListGeneratorImpl.cc:19-33 | moves to the next element and converts it; at the end it stays, however often called |
| Generators.EagerGenerator.constructor | src/impl/RetrieveResultImpl.cc:21-27 | drains the backend completely and in order, then stands on the first element |
| Generators.EagerGenerator.Next | src/impl/RetrieveResultImpl.cc:29-47 | moves one element on, or stays at the end |
| Generators.APIIterator.Advance | include/dasi/api/detail/Generators.h:41-44 | incrementing an iterator moves the generator it refers to by one |
| Generators.APIIterator.AtEnd | include/dasi/api/detail/Generators.h:60-81 | comparing with the sentinel is asking whether the generator is behind its last element |
| Generators.RangeFor | include/dasi/api/detail/Generators.h:101-102 | a range-for sees exactly the elements from the current position to the end, in order |
| Generators.TwoIterators | include/dasi/api/detail/Generators.h:38-54 | two iterators of one generator share its position: turn t sees element t, whichever iterator takes it |
| Generators.SharesMerge | include/dasi/api/detail/Generators.h:38-54 | what two such iterators see, put together in the order of turns, is exactly the elements taken: none lost, none twice |
| Generators.ShareExhausted | include/dasi/api/detail/Generators.h:72-75 | turns after the last element see nothing |
| Cursors.CursorVisitsEach | src/api/dasi_c.cc:303-315 | over n elements, call k succeeds exactly for k <= n and stands on element k-1; later calls report completion and change nothing |
| Cursors.Cursor.Next | src/api/dasi_c.cc:221-232 | one `next` call is one step of that cursor, with the matching return code |
| Cursors.Cursor.Current | src/api/dasi_c.cc:272-278 | yields the element the cursor stands on, and fails its assertion exactly behind the last |
| Cursors.Drain | src/api/dasi_c.cc:259-270 | the usual `while (next() == SUCCESS)` loop sees every element once, in order |
| Cursors.AllTraversalsAgree | src/api/dasi_c.cc:73-83 | prefetching or fetched at once, by range-for or C cursor, the same sequence comes out |
| Cursors.ListHandle.Next | src/api/dasi_c.cc:303-315 | after a success the cached location text is that of the element reached |
| Cursors.ListNext | pydasi/src/pydasi/list.py:49-73 | every field of an item is that of the object reached, with a key object of its own |
| Cursors.CollectList | pydasi/src/pydasi/list.py:40-73 | one item per object found, in order: timestamp, offset, length and location are the object's own and the key holds the last value stored for each of its keywords and no other keyword; the items share no key object although the generator reuses one element |
| Protocol.ReceivedIsNextStretch | src/api/dasi_c.cc:358-396 | in any session mixing reads of any sizes with next, attrs and count, the bytes received are the next stretch of the concatenated objects |
| Protocol.StreamRefinement | src/api/dasi_c.cc:358-375 | from a new handle the bytes form a prefix of everything; completion with no bytes comes exactly when the prefix is everything, and a short read only at the end |
| Protocol.RepliesInSession | src/api/dasi_c.cc:358-412 | in any session, moves succeed as often as there are objects, attributes describe the object last moved to, the count is always the number of all objects, and a read fails exactly for a non-positive length |
| Protocol.SidesAreIndependent | src/api/dasi_c.cc:358-396 | reads and cursor calls cannot notice each other: replies and state of one side are those of a session without the other side, so opening the stream late loses nothing |
| Protocol.Lockstep | pydasi/src/pydasi/retrieve.py:48-76 | for any results, call i gives the i-th object's attributes, field by field, with exactly its bytes, raises exactly if that object is empty, and cursor and stream stay in step even after an error; afterwards it stops |
| Protocol.DoWhileIsOneOff | examples/weather/mean.c:183-209 | over any non-empty results, with e objects before the first empty one: no round if e is 0, else e+1 rounds reporting objects 0, 0, 1, ..., e-1, each with the stretch of the stream it reads; from the second round on that stretch begins behind the object's own start |
| Protocol.OneRound | examples/weather/mean.c:183-209 | where cursor and stream stand before each round, what it reports and reads, and that it fails on an empty object |
| Protocol.RoundStream | examples/weather/mean.c:183-209 | how far each round moves the stream, and that it is ahead of the object reported |
| Retrieval.RetrieveHandle.constructor | src/api/dasi_c.cc:82-90 | a new handle is in the start state: nothing visited, stream not open |
| Retrieval.RetrieveHandle.Next | src/api/dasi_c.cc:385-396 | refines the state machine's next step |
| Retrieval.RetrieveHandle.Attrs | src/api/dasi_c.cc:398-412 | the attributes, field by field, of the current object with a key copy owned by the caller, or a failed assertion behind the last |
| Retrieval.RetrieveHandle.Count | src/api/dasi_c.cc:377-383 | the number of all results, wherever the cursor stands |
| Retrieval.RetrieveHandle.Gather | src/impl/RetrieveResultImpl.cc:57-66 | the stream is all objects' bytes in result order, from the start |
| Retrieval.RetrieveHandle.Read | src/api/dasi_c.cc:358-375 | refines the state machine's read into the caller's buffer, touching nothing behind the bytes delivered; a non-positive length fails and opens nothing |
| Retrieval.ReadChunk | src/api/dasi_c.cc:358-375 | an accepted read delivers the next stretch of the stream, and nothing exactly at its end |
| Retrieval.ReadToEnd | tests/c_api/test_c_api_simple_archive.cc:373-389 | the read loop that asks each time for the length it got before terminates, with length 0, having received the whole rest of the stream |
| Retrieval.RetrieveRead | pydasi/src/pydasi/retrieve.py:59-76 | one item in fresh storage, zero-filled where the read was short |
| Retrieval.RetrieveNext | pydasi/src/pydasi/retrieve.py:48-52 | one iteration step of pydasi refines the client step of the state machine |
| Retrieval.CollectRetrieve | pydasi/src/pydasi/retrieve.py:45-52 | the collected list is the leading objects up to the first empty one, each item with its object's own timestamp, offset, length, bytes and last value of each keyword, in storage of its own; it fails exactly if there is an empty one |
| Keys.Key.FromString | src/api/Key.cc:22-32 | the parsing loop yields the parsed map, or the first complaint and no object |
| Keys.Key.Set | src/api/Key.cc:50-52 | replaces or adds one entry and nothing else |
| Keys.Key.Get | src/api/Key.cc:76-84 | the stored value, or an error naming the missing keyword |
| Keys.Key.Erase | src/api/Key.cc:90-98 | removes one entry; a missing keyword changes nothing |
| Keys.Key.Insert | pydasi/src/pydasi/key.py:89-91 | a dict's entries are set in order, later ones replacing earlier ones |
| Keys.Key.GetIndex | src/api/dasi_c.cc:463-473 | succeeds exactly for 0 <= n < size and gives the entry whose keyword has exactly n keywords below it |
| Keys.Key.CompareTo | src/api/dasi_c.cc:439-452 | 0 exactly on equal contents, otherwise -1 or 1 as the least keyword on which the keys differ decides |
| Keys.MapLessIsStrictTotalOrder | src/api/Key.cc:108-122 | key comparison is irreflexive, transitive and total on the stored maps |
| Keys.CompareLaws | src/api/dasi_c.cc:439-452 | 0 exactly on equal contents, antisymmetric, transitive |
| Keys.CompareDecidedByFirstDifference | src/api/Key.cc:108-110 | at the least keyword on which two keys differ, its two values decide if both have it; if one alone has it, that one comes first, unless the other has no greater keyword |
| Keys.FirstDifferenceExists | src/api/Key.cc:108-110 | two different keys always have a least keyword on which they differ |
| Keys.PrintedEntries | src/api/Key.cc:34-36 | a key prints as `{}` or as `keyword=value` pairs in keyword order, separated by commas inside braces |
| Keys.EqualityIgnoresInsertionOrder | pydasi/src/pydasi/key.py:76-91 | Python equality of keys built from dicts holds exactly if the dicts have the same entries, in whatever order |
| Keys.KeyRoundTrip | src/api/Key.cc:22-36 | parsing the printed text gives the key back exactly if its parts are free of the separators and, where empty pieces are dropped, not empty (where they are kept, the key must not be empty) |
| Keys.ParsePairOfParts | src/api/Key.cc:24-31 | a piece is a pair exactly if '=' cuts it into two parts and the value holds no '/'; otherwise it names which of the two is wrong |
| Keys.FirstComplaint | src/api/Key.cc:24-31 | a key text with rejected pieces fails with the complaint about the first of them |
| Keys.RepeatedKeywords | src/api/Key.cc:30-52 | with a repeated keyword the parser keeps the first value where `set` and `insert` keep the last |
| OrderedMap.StringOrder | src/api/Key.cc:108-110 | two keywords or values are ordered by their first differing characters, a proper prefix first |
| OrderedMap.LexIsStrictTotalOrder | src/api/Key.cc:108-118 | comparing sequences element by element, as the library does, lifts a strict total order |
| OrderedMap.ItemsAscending | include/dasi/api/Key.h:63-65 | iterating a key visits strictly ascending keywords |
| OrderedMap.ItemsListPairs | include/dasi/api/Key.h:63-65 | iterating a key visits every entry, and nothing else |
| OrderedMap.ListingOrderIrrelevant | pydasi/src/pydasi/key.py:89-91 | inserting the same entries in another order gives the same key |
| Text.SplitOfJoin | src/api/Key.cc:24-25 | cutting a text joined from separator-free parts gives the parts back |
| Parsing.ErrorIsFinal | src/api/Key.cc:24-31 | the first rejected piece decides the outcome of the parse |
| Queries.Query.FromString | src/api/Query.cc:16-24 | the parsing loop yields the parsed query, or the first complaint and no object |
| Queries.Query.Set | src/api/dasi_c.cc:541-555 | stores the first num values in order; a negative count or a null among them fails and changes nothing |
| Queries.Query.Append | src/api/Query.cc:42-49 | adds one value behind the keyword's others, or starts its list |
| Queries.Query.GetValue | src/api/dasi_c.cc:566-577 | the num-th value, or the error the first failing check reports |
| Queries.KeyTextIsQueryText | src/api/Query.cc:16-24 | every text accepted as a key is accepted as a query, with the same keywords and each value alone in its list |
| Queries.KeyTextIffNoValueList | src/api/Key.cc:24-31 | of the texts the query parser accepts, the key parser accepts exactly those without '/' in a value |
| Queries.QueryRoundTrip | src/api/Query.cc:16-24 | a query's request text parses back to it, value order included, exactly if every list is non-empty and the parts are free of the separators |
| Queries.WrittenTerms | src/api/Query.cc:16-24 | the request text is `keyword=value/value` terms in keyword order, separated by commas |
| Queries.EmptyListDoesNotRoundTrip | src/api/Query.cc:16-24 | a query with an empty value list never comes back from its text |
| Filenames.RunBecomesDash | pydasi/src/pydasi/rucio/backend.py:27 | each maximal run of unsafe characters becomes one '-', independently of the text around it |
| Filenames.SanitizeWoven | pydasi/src/pydasi/rucio/backend.py:153-161 | for any text with a letter or digit: everything before the first and behind the last of these is dropped and each run of unsafe characters between them becomes one '-', with nothing else changed |
| Filenames.SanitizeNothing | pydasi/src/pydasi/rucio/backend.py:153-161 | any text without a letter or digit becomes "empty" |
| Filenames.EveryTextIsWoven | pydasi/src/pydasi/rucio/backend.py:153-161 | every text with a letter or digit is padding around words and runs in between, so these two cases are all there are |
| Filenames.StripFacts | pydasi/src/pydasi/rucio/backend.py:155-160 | stripping cuts only the given characters, at both ends only, and all of them |
| Filenames.SanitizeIsSanitary | pydasi/src/pydasi/rucio/backend.py:153-161 | every result is non-empty, made of safe characters, with none of ".-_" at its ends |
| Filenames.SanitizeFixedPoints | pydasi/src/pydasi/rucio/backend.py:153-161 | sanitising is idempotent and leaves exactly the sanitary parts unchanged |
| Filenames.NamedParts | pydasi/src/pydasi/rucio/backend.py:95-98 | the name is the sanitised `keyword-value` parts in keyword order, joined by '_', with ".data" behind them |
| Filenames.FilenameIsSingleComponent | pydasi/src/pydasi/rucio/backend.py:95-106 | for every key, the empty one too, the file name is one path component, so the directory check never fires |
| Injectivity.ForwardDetermines | pydasi/src/pydasi/rucio/backend.py:95-98 | without '-' in keywords and '_' in values, a name read from the left determines the sorted entries |
| Injectivity.BackwardDetermines | pydasi/src/pydasi/rucio/backend.py:95-98 | without '_' in keywords and '-' in values, a name read from the right determines the sorted entries |
| Injectivity.FilenameInjective | pydasi/src/pydasi/rucio/backend.py:95-98 | within either of these alphabets two keys with the same file name are equal |
| Injectivity.UnsanitaryKeywordCollides | pydasi/src/pydasi/rucio/backend.py:95-98 | a keyword that needs sanitising shares its file name with its sanitised form |
| Injectivity.UnsanitaryCollides | pydasi/src/pydasi/rucio/backend.py:95-98 | a value that needs sanitising shares its file name with its sanitised form |
| Injectivity.DashInKeywordCollides | pydasi/src/pydasi/rucio/backend.py:95-98 | with '-' in keywords and in values two different keys share a file name |
| Injectivity.SeparatorsInValueCollide | pydasi/src/pydasi/rucio/backend.py:95-98 | with '-' and '_' in values two different keys share a file name |
| Injectivity.SeparatorsInKeywordCollide | pydasi/src/pydasi/rucio/backend.py:95-98 | with '-' and '_' in keywords two different keys share a file name |
| Injectivity.UnderscoreOnBothSidesCollides | pydasi/src/pydasi/rucio/backend.py:95-98 | with '_' in keywords and in values two different keys share a file name |
| Injectivity.InjectiveIffReadable | pydasi/src/pydasi/rucio/backend.py:95-98 | for every choice of what keywords and values may contain (text that needs sanitising, '-', '_', on either side), file names determine keys exactly if nothing needs sanitising and one of the two alphabets is kept to |
| Archive.ValidateReply | pydasi/src/pydasi/rucio/backend.py:163-191 | fails exactly for False, a dict with a field set, an empty list and a list with such a dict; a dict is quoted by its "error" or else its "exception", a list's dicts in order, each once |
| Archive.ReportedInOrder | pydasi/src/pydasi/rucio/backend.py:181-191 | the failures a list reply reports are those of the dicts with a field set, in list order, each once and none left out |
| Archive.Rucio.AttachMetadata | pydasi/src/pydasi/rucio/backend.py:136-143 | every entry is tried: exactly the accepted ones are attached, the others are collected in key order |
| Archive.Rucio.Upload | pydasi/src/pydasi/rucio/backend.py:123-123 | the assumed behaviour of the upload client's call: a taken name never changes and never gets a reply, but other exceptions are raised for it too; a free name is registered exactly if the call stores something |
| Archive.Rucio.Archive | pydasi/src/pydasi/rucio/backend.py:91-151 | the whole effect of a call on the catalogue, and how it ends, for every way the upload, its reply and the attributes can go: on a taken name nothing changes and only an upload error is raised; on a free name a failed upload or reply raises and attaches nothing; otherwise the bytes and exactly the attributes not rejected are stored, and it raises exactly if one was rejected |
| Archive.CallProceeds | pydasi/src/pydasi/rucio/backend.py:91-151 | the functions the history lemmas are about do exactly that in each of these cases |
| Archive.NormalReturn | pydasi/src/pydasi/rucio/backend.py:121-151 | a call returns normally exactly if nothing was uploaded or a free name got the full key; after a normal return the name has an entry exactly if it was taken or the upload was accepted |
| Archive.SilentLoss | pydasi/src/pydasi/rucio/backend.py:126-132 | a normal return leaves no entry exactly if the client reports that nothing was uploaded for a free name |
| Archive.RejectedInOrder | pydasi/src/pydasi/rucio/backend.py:138-149 | the error list is the faulty entries in key order, each once and none left out |
| Archive.RejectedEntries | pydasi/src/pydasi/rucio/backend.py:138-149 | an entry is in the error list exactly if its attribute failed, with the reason given |
| Archive.AttributesAccounted | pydasi/src/pydasi/rucio/backend.py:138-149 | every entry is either attached with its value or listed as failed, never both |
| Archive.NoneRejected | pydasi/src/pydasi/rucio/backend.py:145-149 | no error is raised exactly if the full key is attached |
| Archive.EntriesArePermanent | pydasi/src/pydasi/rucio/backend.py:121-132 | over any further calls, faulty ones included, an entry once stored never changes |
| Archive.EntryOrigin | pydasi/src/pydasi/rucio/backend.py:121-149 | every entry goes back to the first call that stored under its name |
| Archive.FirstStoreWins | pydasi/src/pydasi/rucio/backend.py:121-149 | over every history, faults included, a name holds the bytes and attached metadata of the first call that stored under it |
| Archive.RetryDoesNotRepair | pydasi/src/pydasi/rucio/backend.py:121-149 | in any history, archiving a settled key again changes nothing and returns normally unless the upload raises; the entry carries the full key exactly if the settling call was accepted and no attribute failed, or, after a failed upload that registered the name, if there is nothing to attach |
| Archive.FaithfulStore | pydasi/src/pydasi/rucio/backend.py:91-151 | without faults and within a readable alphabet, each key leads to the first bytes archived under exactly that key, with the full key as metadata |
| Archive.RunHistory | pydasi/src/pydasi/rucio/backend.py:91-151 | a backend that served any sequence of calls holds exactly the catalogue the history lemmas speak of |
| RucioRetrieval.RucioRetrieve.Iter | pydasi/src/pydasi/rucio/retrieve.py:111-117 | takes the listing and starts at its beginning |
| RucioRetrieval.RucioRetrieve.Next | pydasi/src/pydasi/rucio/retrieve.py:119-142 | delivers the next outcome, passing over undownloadable entries only; an item has the entry's bytes, its name or else its DID or else no name, and empty metadata after a failing lookup; an aborting error consumes its entry |
| RucioRetrieval.OutcomesInOrder | pydasi/src/pydasi/rucio/retrieve.py:119-142 | the outcomes are exactly the entries that are not skipped, each once, in listing order |
| RucioRetrieval.NothingUnaccounted | pydasi/src/pydasi/rucio/retrieve.py:144-145 | delivered and skipped entries together are the listing |
| RucioRetrieval.Exhaust | pydasi/src/pydasi/rucio/retrieve.py:119-145 | calling until it stops, going on after errors, delivers all outcomes once |
| Policy.PolicyStatusGenerator.Next | src/impl/PolicyStatusGeneratorImpl.cc:17-56 | after each row the reused dictionary reports that row's policies and no others |
| Policy.PolicyStatusGenerator.Update | src/impl/PolicyStatusGeneratorImpl.cc:27-49 | filling the dictionary over an earlier row leaves nothing of that row: "access.list", "access.retrieve", "access.archive" and "access.wipe" are there exactly if asked for, each with the row's own setting, and nothing else is |
| Policy.ReportIsDetermined | src/impl/PolicyStatusGeneratorImpl.cc:27-49 | the dictionary is a function of its row and the specifiers alone |
| Policy.CollectPolicies | src/impl/PolicyStatusGeneratorImpl.cc:17-64 | every emitted element shows its own row's keywords and, under their names, its own row's policies |
| Policy.FoldAccess | src/api/Dasi.cc:184-204 | fails exactly if two entries disagree; otherwise one action, and each of the four identifiers exactly if an entry is named "list", "retrieve", "archive" or "wipe" |
| Policy.SetPolicy | src/api/Dasi.cc:176-212 | one control action with those identifiers, or an error and no change |
| Policy.QueryPolicy | src/api/Dasi.cc:214-222 | reports the selected databases under the pieces of the dotted name |
| Policy.DottedNameSelectsOne | src/impl/PolicyStatusGeneratorImpl.cc:28-48 | a full dotted name asks for exactly that policy |
| Policy.DottedNameReportsOne | src/impl/PolicyStatusGeneratorImpl.cc:28-48 | the query "access.list" reports the one entry of that name, with the row's setting for listing; likewise the other three |
| Policy.EmptyNameSelectsAll | src/api/Dasi.cc:214-218 | the empty name asks for everything exactly if empty pieces are dropped |
| Policy.SelectedAfterControl | src/api/Dasi.cc:206-207 | control does not change which databases a request selects |
| Policy.SelectedInOrder | src/api/Dasi.cc:219-221 | the databases asked about are exactly those the request holds of, in order, each once |
| Policy.SetThenQuery | src/api/Dasi.cc:176-222 | after setting, a query reports, under each of the four names asked for, the new value where an entry of that name was set on a selected database, and the old value everywhere else |
| Schema.Getline | src/tools/dasi-schema.cc:137-141 | the token loop delivers the pieces between separators, none after a final separator |
| Schema.TokenizeRules | src/tools/dasi-schema.cc:116-147 | one token list per line of the dump |
| Schema.FlattenPrintedRule | src/tools/dasi-schema.cc:129-144 | for a rule of any depth, with any number of spaces around names, marks and brackets after the first, the tokens are its keyword names in reading order, none empty |
| Schema.FlattenDump | src/tools/dasi-schema.cc:116-147 | the same for each line of a whole dump, with or without a final newline |
| Schema.QueryTemplate | src/tools/dasi-schema.cc:173-183 | the printed template is `{k=%s,...}` with separators only between keywords |
| Schema.TemplateIsKeyText | src/tools/dasi-schema.cc:173-183 | without braces, a template parses as a key over exactly the rule's keywords |
| Forecast.DecimalInjective | examples/weather/forecast.c:154-154 | decimal texts of different numbers differ |
| Forecast.DecimalNotation | examples/weather/forecast.c:154-154 | the text of a number is its decimal notation: digits without a leading zero that read back as the number |
| Forecast.BufferedText | examples/weather/forecast.c:37-37 | the 5-byte buffer holds the whole text of numbers below 10000 and the leading four digits of greater ones |
| Forecast.BufferedFacts | examples/weather/forecast.c:37-37 | the 5-byte buffer keeps numbers below 10000 apart and confuses 1000 with 10000 |
| Forecast.MembersList | examples/weather/forecast.c:141-190 | the loops visit every coordinate in range exactly once, ordered by member, step, level and parameter |
| Forecast.MembersCount | examples/weather/forecast.c:141-190 | a run writes members * steps * levels * 4 fields |
| Forecast.ArchivedField | examples/weather/forecast.c:134-168 | an archived key has the fixed entries and the four loop entries only: member, step and level read back as numbers below 10000, and the parameter is "p", "t", "u" or "v" |
| Forecast.AdvanceValues | examples/weather/forecast.c:184-187 | the accumulated values follow their closed form from step to step |
| Forecast.ValueMoves | examples/weather/forecast.c:144-187 | the closed form starts at the initial value, gains one increment per member and per step and loses one per level |
| Forecast.Forecast | examples/weather/forecast.c:134-190 | the i-th archived field is under the key of the i-th coordinate with value init + (number + step - 1 - level) * incr |
| Forecast.KeysDistinctIffWithinBuffer | examples/weather/forecast.c:141-190 | all archived keys differ exactly for at most 10000 members, 9999 steps and 10000 levels |
| Forecast.NothingOverwritten | examples/weather/forecast.c:163-182 | within that bound no two archived fields of a run share a key |

## Left out

- FDB itself: schema matching, query expansion, deduplication, masking, wiping and purging; a backend is a finite sequence or a set of rows.
- C null-pointer assertions, object lifetimes and the error string; `dasi_list_count`, which only raises "not implemented".
- pydasi's `Wipe`, which yields itself: its value pointer into the reused element is not modelled, only the cursor under it.
- `dasi_list_attrs` before the first `next`: the location cache is then still empty, so listing items are stated after a success.
- Policy.SetPolicy: requires at least one access entry, because the source leaves the action unassigned otherwise (src/api/Dasi.cc:186).
- Key.print and Query.print beyond the key's printed shape; the query's bracketed print is not a text its parser reads.
- pydasi's `Key.__repr__`; its index access is covered by `GetIndex`.
- Machine integer widths: lengths, offsets and counts are unbounded.
- Archive.Rucio.Archive: Python's `repr` and `str` of entries in the error text are not modelled; errors are kept as (keyword, value, reason).
- The temporary file and directory of `Rucio.archive`; the path check is modelled on the name alone.
- How `RucioRetrieve._download` finds the file; a download is data, "not downloadable", or an aborting error.
- rucio_s3boto3.py, configuration, command-line tools, plotting and build files.
- Forecast.Forecast: values are real numbers, so rounding and the printed form of a value are not modelled; archiving is taken not to fail.
