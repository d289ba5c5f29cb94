# InfoSearch core, modelled in Dafny

InfoSearch is a small search engine in two C++ programs:

- **Indexer** (`indexer/main.cpp`). It reads crawled pages as JSON lines and pulls out the `html_content`, `$oid` and `url` fields. It splits the text into lower-cased, stemmed terms and keeps them in a chained hash table of posting entries. It then writes two binary index files: the forward file (the document table) and the inverted file (the term table).
- **Query engine** (`engine/main.cpp`). It loads both files and answers a query:
  - a query with no operator character is looked up as one term;
  - any other query is a boolean query with `&&`, `||`, `!` and parentheses. A recursive-descent evaluator computes it over sets of document ids.

This project models both programs' cores as imperative Dafny:

- **Classes** stand for the objects the code updates in place: the HTML filter state, the posting store, the query lexer and evaluator, and the engine's loaded tables.
- **Methods with loops** stand for the code's loops. Each method is proved equal to a specification function, and the programs' promises are proved about those functions as lemmas.

| file | module | models |
|---|---|---|
| wrappers.dfy | Wrappers | `Option`, `Result` and the decoding errors |
| bytes.dfy | ByteCodec | 4- and 8-byte little-endian two's-complement integers, as `fwrite` writes them and `in.read` reads them back |
| indexformat.dfy | IndexFormat | the layout the engine reads, with decoders and round trips |
| docsets.dfy | DocSets | `intersect`, `union_op`, `complement` |
| lexer.dfy | QueryLexer | `QueryParser`: `skip_whitespace`, `read_term`, `get_next_token` |
| evaluator.dfy | QueryEval | `get_docs_for_term`, `QueryEvaluator` |
| loaders.dfy | Loaders | `load_forward`, `load_inverted` |
| presenter.dfy | Presenter | the `is_simple` test of `main`, `search_single_term`, `search_boolean` |
| text.dfy | Text | `is_valid_char`, `towlower`, `stem`, and the terms `process_html` cuts from a text |
| html.dfy | HtmlFilter | `HtmlState`, `html_filter_char` |
| postings.dfy | Postings | `hash`, `add_doc`, `add_term`, `process_html` |
| extract.dfy | JsonField | `extract` |
| utf8.dfy | Utf8 | UTF-8 encoding of a term, as `wcstombs` does it |
| serialise.dfy | Serialise | `save_forward`, `save_inverted` |

Modelling choices:

- **Strings.**
  - The engine works on bytes (`seq<byte>`).
  - The indexer's wide strings are sequences of code points (`seq<char>`).
  - A C string is its contents before the terminator.
- **Globals.** They become object fields:
  - `documents` and `hash_table` of the engine become `Loaders.Engine`;
  - `hash_table` and `stats.total_unique_terms` of the indexer become `Postings.PostingStore`;
  - the evaluator reads the loaded tables as a value (`QueryEval.Index`).
- **Index files.**
  - A file is the byte sequence written to it.
  - A read past the end is an explicit error.
- **Posting chains.** Each of the `HASH_SIZE` buckets holds a sequence of entry values, head first. An entry's document list is a sequence, most recent first.

## Model

| member | source | states |
|---|---|---|
| ByteCodec.Int32RoundTrip | engine/main.cpp:41-42 | a 32-bit `int` written with `fwrite` is read back as the same value |
| ByteCodec.Int64RoundTrip | engine/main.cpp:77-78 | a `long long` written with `fwrite` is read back as the same value |
| ByteCodec.ReadInt32 | engine/main.cpp:42 | reading an `int` fails exactly when fewer than 4 bytes remain; otherwise it consumes 4 bytes and yields a 32-bit value |
| ByteCodec.ReadInt64 | engine/main.cpp:78 | reading a `long long` fails exactly when fewer than 8 bytes remain; otherwise it consumes 8 bytes |
| ByteCodec.ReadBytes | engine/main.cpp:51-52 | `resize(l)` plus `read(l)` succeeds exactly when 0 <= l <= remaining bytes, and splits the input at l |
| ByteCodec.ReadInt32Of | engine/main.cpp:42 | reading the 4 bytes of x followed by anything yields x and leaves the rest |
| ByteCodec.ReadInt64Of | engine/main.cpp:78 | the same for the 8 bytes of a `long long` |
| IndexFormat.ReadField | engine/main.cpp:50-52 | a length-prefixed string consumes 4 + its length bytes and is followed by the rest |
| IndexFormat.ReadDocument | engine/main.cpp:46-64 | one forward record is three strings; the url is kept and at least 12 bytes are consumed |
| IndexFormat.ReadDocuments | engine/main.cpp:45-65 | n forward records yield exactly n urls |
| IndexFormat.DecodeForward | engine/main.cpp:41-65 | a decoded document table has as many urls as the stored count |
| IndexFormat.ReadIds | engine/main.cpp:94-101 | the id loop reads exactly doc_count 32-bit ids (none when doc_count <= 0) |
| IndexFormat.ReadRecord | engine/main.cpp:83-101 | a term record's list has exactly doc_count nodes |
| IndexFormat.ReadRecords | engine/main.cpp:80-104 | total_terms records are read in file order (none when total_terms <= 0) |
| IndexFormat.DecodeInvertedRecords | engine/main.cpp:77-104 | the number of records decoded is the stored total, or zero when it is negative |
| IndexFormat.ToTable | engine/main.cpp:103 | `hash_table[e->term] = e` for each record: the keys are exactly the records' terms, and a later record wins |
| IndexFormat.ForwardRoundTrip | engine/main.cpp:34-68 | the forward layout read back gives every url in document-id order |
| IndexFormat.InvertedRoundTrip | engine/main.cpp:70-107 | the reader's inverted layout read back gives every record with the same term, freq, doc_count and ids in order |
| IndexFormat.ToTableDistinct | engine/main.cpp:103 | with distinct terms, the loaded table maps each term to its own record |
| IndexFormat.InvertedTableRoundTrip | engine/main.cpp:70-107 | the table loaded from an encoded store has exactly the store's terms as keys, each with its record |
| DocSets.Universe | engine/main.cpp:150 | the loaded ids are exactly 0 .. documents.size()-1 |
| DocSets.Intersect | engine/main.cpp:124-140 | intersect returns a ∩ b whichever operand is larger |
| DocSets.Probe | engine/main.cpp:127-137 | the probing loop keeps exactly the ids of the walked set that the other set holds |
| DocSets.Union | engine/main.cpp:142-146 | union_op returns a ∪ b |
| DocSets.Complement | engine/main.cpp:148-156 | complement returns the loaded ids that are not in a |
| DocSets.ComplementDisjoint | engine/main.cpp:148-156 | a set and its complement share no id |
| DocSets.DoubleComplement | engine/main.cpp:148-156 | complementing twice leaves a ∩ universe |
| QueryLexer.SkipSpaces | engine/main.cpp:182-186 | skip_whitespace stops at the first non-space byte or at the end, having passed only spaces |
| QueryLexer.TermEnd | engine/main.cpp:188-199 | read_term stops at the first whitespace or `( ) ! & \|` byte, or at the end |
| QueryLexer.NextToken | engine/main.cpp:204-244 | each call returns End exactly at the end of the query, or moves the cursor forward |
| QueryLexer.NextTokenTerm | engine/main.cpp:188-244 | a Term that get_next_token returns is a non-empty maximal run of term bytes, ending at a delimiter or the end, and every byte passed over before it is whitespace or an `&` or `\|` that is not doubled |
| QueryLexer.TokensFrom | engine/main.cpp:204-244 | the token stream up to End is finite and holds no End |
| QueryLexer.TokensAtEnd | engine/main.cpp:207-209 | at the end of the query the lexer keeps returning End |
| QueryLexer.DoubleAmpersandIsAnd | engine/main.cpp:223-227 | `&&` is And and moves the cursor by two |
| QueryLexer.DoubleBarIsOr | engine/main.cpp:229-233 | `\|\|` is Or and moves the cursor by two |
| QueryLexer.SingleByteOperators | engine/main.cpp:214-222 | `(`, `)` and `!` are one-byte tokens |
| QueryLexer.LoneOperatorDropped | engine/main.cpp:223-243 | a single `&` or `\|` is consumed and gives no token of its own |
| QueryLexer.QueryParser.constructor | engine/main.cpp:202 | the parser starts at position 0 of the query |
| QueryLexer.QueryParser.SkipWhitespace | engine/main.cpp:182-186 | the loop leaves pos where SkipSpaces says |
| QueryLexer.QueryParser.ReadTerm | engine/main.cpp:188-199 | the loop leaves pos at TermEnd and returns the bytes passed over |
| QueryLexer.QueryParser.GetNextToken | engine/main.cpp:204-244 | the method, with its recursive retry, returns NextToken's token and cursor |
| QueryEval.EvalExpression | engine/main.cpp:256-272 | an Expression consumes a prefix of the token stream |
| QueryEval.EvalTail | engine/main.cpp:259-269 | the (AND\|OR) Term loop consumes a prefix of the stream |
| QueryEval.EvalTerm | engine/main.cpp:274-282 | a Term consumes a prefix of the stream |
| QueryEval.EvalFactor | engine/main.cpp:284-304 | a Factor consumes a prefix of the stream |
| QueryEval.CloseParen | engine/main.cpp:288-293 | the `)` check consumes at most the `)` |
| QueryEval.FactorOfTerm | engine/main.cpp:296-300 | a TERM Factor is the term's document set and consumes the term |
| QueryEval.FactorOfParen | engine/main.cpp:285-294 | `(` starts an Expression, and then the `)` check runs |
| QueryEval.TermOfNot | engine/main.cpp:275-279 | NOT complements the Factor that follows it |
| QueryEval.TailOfOperator | engine/main.cpp:259-268 | AND intersects and OR unites the next Term with the result so far |
| QueryEval.TermOfFactor | engine/main.cpp:281 | a Term without NOT is its Factor |
| QueryEval.TailStops | engine/main.cpp:259 | the loop stops at any token other than AND or OR |
| QueryEval.ExpressionOf | engine/main.cpp:256-272 | an Expression is its first Term followed by the loop |
| QueryEval.EvalTailChain | engine/main.cpp:259-269 | over a flat chain of operators and terms, the loop computes the left fold |
| QueryEval.FlatQueryFoldsLeft | engine/main.cpp:256-272 | AND and OR share one precedence level: a flat query is the left fold of its terms |
| QueryEval.AndThenOrGroupsLeft | engine/main.cpp:256-272 | `a && b \|\| c` is (A ∩ B) ∪ C |
| QueryEval.OrBeforeCloseParen | engine/main.cpp:259 | the Expression inside parentheses stops at the `)` |
| QueryEval.ParenthesizedTerm | engine/main.cpp:285-294 | a parenthesised Expression that ends at its `)` is a Term of its own |
| QueryEval.AndLastTerm | engine/main.cpp:264-265 | `a && g` intersects with what g evaluates to |
| QueryEval.ParenthesesGroup | engine/main.cpp:285-294 | `a && (b \|\| c)` is A ∩ (B ∪ C) |
| QueryEval.NotAppliesToOneFactor | engine/main.cpp:275-279 | `!a && b` is (¬A) ∩ B: NOT applies to one Factor only |
| QueryEval.WithOwnComplement | engine/main.cpp:264-279 | `a op !a` evaluates to A op (universe − A) |
| QueryEval.AndNotSelfIsEmpty | engine/main.cpp:264-279 | `a && !a` is empty |
| QueryEval.OrNotSelfIsUniverse | engine/main.cpp:266-279 | `a \|\| !a` is the universe plus any out-of-range ids in a's list |
| QueryEval.DoubleNotIsUniverse | engine/main.cpp:275-304 | `!!a` is the whole universe and leaves `!a` unread |
| QueryEval.UnknownTermIsEmpty | engine/main.cpp:111-122 | an unknown term gives the empty set and is consumed |
| QueryEval.MissingCloseParenIsEmpty | engine/main.cpp:288-291 | a missing `)` gives the empty set and leaves the stray token |
| QueryEval.UnexpectedTokenIsEmpty | engine/main.cpp:302-303 | a Factor starting with anything but TERM or `(` is empty and consumes nothing |
| QueryEval.ExpressionExtends | engine/main.cpp:256-272 | an Expression that stops early never looked past where it stopped |
| QueryEval.TailExtends | engine/main.cpp:259-269 | the same for the operator loop |
| QueryEval.TermExtends | engine/main.cpp:274-282 | the same for a Term |
| QueryEval.FactorExtends | engine/main.cpp:284-304 | the same for a Factor |
| QueryEval.CloseParenExtends | engine/main.cpp:288-293 | the same for the `)` check |
| QueryEval.ExpressionConsumesPrefix | engine/main.cpp:256-272 | what is left after an Expression is a suffix of its stream |
| QueryEval.TailConsumesPrefix | engine/main.cpp:259-269 | the same for the loop |
| QueryEval.TermConsumesPrefix | engine/main.cpp:274-282 | the same for a Term |
| QueryEval.FactorConsumesPrefix | engine/main.cpp:284-304 | the same for a Factor |
| QueryEval.TrailingTokensIgnored | engine/main.cpp:311-313 | tokens after a complete top-level Expression do not change the result |
| QueryEval.DocsForTerm | engine/main.cpp:111-122 | get_docs_for_term returns exactly the ids in the term's list, and none for an unknown term |
| QueryEval.QueryEvaluator.constructor | engine/main.cpp:307-309 | the evaluator starts with the lexer's first token current |
| QueryEval.QueryEvaluator.Advance | engine/main.cpp:252-254 | advance drops the current token from the stream |
| QueryEval.QueryEvaluator.ParseExpression | engine/main.cpp:256-272 | parse_expression returns EvalExpression's set and leaves its rest of the stream |
| QueryEval.QueryEvaluator.ParseTerm | engine/main.cpp:274-282 | parse_term returns EvalTerm's set and rest |
| QueryEval.QueryEvaluator.ParseFactor | engine/main.cpp:284-304 | parse_factor returns EvalFactor's set and rest |
| QueryEval.EvaluateQuery | engine/main.cpp:343-345 | lexing plus evaluate() gives EvalQuery of the query |
| Loaders.Engine.constructor | engine/main.cpp:31-32 | both tables start empty |
| Loaders.Engine.LoadForward | engine/main.cpp:34-68 | load_forward succeeds exactly when the file decodes; then `documents` is the decoded url table and the term table is unchanged |
| Loaders.Engine.ReadUrls | engine/main.cpp:45-65 | the record loop keeps each url in turn, or reports the first decoding error |
| Loaders.Engine.LoadInverted | engine/main.cpp:70-107 | load_inverted succeeds exactly when the file decodes; then the table is the old one with every record stored under its term, a later one winning |
| Loaders.Engine.InsertRecords | engine/main.cpp:80-104 | the outer loop inserts each record as it is read |
| Loaders.Engine.InsertCount | engine/main.cpp:80-104 | the record loop run n times stores every record read, or stops with the first decoding error and reports it |
| Loaders.Engine.LoadDocument | engine/main.cpp:46-64 | one forward record, or the error that reading it meets |
| Loaders.Engine.LoadRecord | engine/main.cpp:81-101 | one term record, with its ids linked in file order |
| Loaders.ForwardFromRecords | engine/main.cpp:41-65 | once the count is read and is not negative, load_forward ends as its record loop does |
| Loaders.InvertedFromRecords | engine/main.cpp:77-104 | once the count is read, load_inverted ends as its record loop does |
| Presenter.InRangeIds | engine/main.cpp:330 | the ids kept are all ids of loaded documents |
| Presenter.InRangeIdsMembers | engine/main.cpp:330 | an id is kept exactly when it is listed and names a loaded document |
| Presenter.ListedStopsAtCap | engine/main.cpp:329 | once 50 urls have been listed, no later id is listed |
| Presenter.ListedBounds | engine/main.cpp:327-335 | at most 50 ids are listed, each in range and from the list, and all of them when there are few |
| Presenter.InRangeIdsAscending | engine/main.cpp:358 | skipping out-of-range ids keeps ascending order |
| Presenter.ListedAscending | engine/main.cpp:349-362 | the boolean listing is in ascending id order |
| Presenter.Smallest | engine/main.cpp:349-350 | the scan finds the smallest id of the result |
| Presenter.SortedIdsSorted | engine/main.cpp:349-350 | the sorted vector is strictly ascending and holds exactly the result's ids |
| Presenter.SortResult | engine/main.cpp:349-350 | building and sorting the vector gives SortedIds of the result |
| Presenter.SortStep | engine/main.cpp:349-350 | taking the smallest remaining id extends the sorted prefix by one |
| Presenter.IsSimple | engine/main.cpp:379-385 | the query is simple exactly when it holds none of `& \| ! ( )` |
| Presenter.SearchSingleTerm | engine/main.cpp:316-340 | search_single_term shows the header, the first 50 in-range urls of the list in order, and the "... more" line |
| Presenter.SearchBoolean | engine/main.cpp:342-363 | search_boolean shows the found count, the first 50 in-range urls in ascending order, and the "... more" line |
| Presenter.ListSorted | engine/main.cpp:352-362 | the listing loop shows the urls of Listed in order, and prints "... more" with result.size() − 50 exactly when it stops at the cap |
| Presenter.ListingStopped | engine/main.cpp:353-356 | a break once 50 urls are shown means the listing stopped early and shows exactly those 50 |
| Presenter.ListingFinished | engine/main.cpp:352-362 | a loop that runs to the end without reaching the cap lists every in-range id and prints no "... more" |
| Presenter.Search | engine/main.cpp:379-393 | a query without operators takes the single-term path and any other takes the boolean path |
| Presenter.SimpleQueryHasOnlyTerms | engine/main.cpp:379-389 | on the single-term path every token the lexer would give is a Term |
| Presenter.BooleanListing | engine/main.cpp:349-362 | the boolean listing is ascending, at most 50 long, and each id is a loaded document in the result |
| Presenter.SingleListingComplete | engine/main.cpp:327-335 | with at most 50 in-range ids, the single-term listing shows every one |
| Presenter.SingleMoreCountsDocCount | engine/main.cpp:337-339 | the single-term "... more" line appears exactly when doc_count > 50, and counts doc_count − 50 |
| Presenter.BooleanMoreMeansFullListing | engine/main.cpp:353-357 | the boolean "... more" line appears only after 50 urls with an id still to come, and always when more than 50 ids are in range |
| Text.IsValidChar | indexer/main.cpp:100-105 | definition of is_valid_char: iswalnum (over the ASCII and Russian table) or a Russian letter А..Я, а..я, Ё, ё |
| Text.Lower | indexer/main.cpp:177 | towlower keeps letters letters and token characters token characters, never returns an upper-case letter, and leaves lower-case letters and digits alone |
| Text.LowerAllAt | indexer/main.cpp:177 | each buffered character is the lower-case form of the text's character |
| Text.Stem | indexer/main.cpp:108-116 | the stem is a prefix of the token, 0, 2 or 3 characters shorter, and at least 3 characters long when changed |
| Text.StemInPlace | indexer/main.cpp:108-116 | writing a NUL in the buffer leaves exactly Stem of the token before it, and changes nothing else |
| Text.StemCut | indexer/main.cpp:109-115 | the cut lands where the matching suffix starts |
| Text.StemIsFirstMatch | indexer/main.cpp:110-115 | stem cuts the suffix of the first rule in table order that applies, and no other |
| Text.StemKeepsUnmatched | indexer/main.cpp:110-115 | a token no rule applies to is left unchanged |
| Text.BeforeNul | indexer/main.cpp:172 | the tokenizer walks the text up to its first NUL |
| Text.TrailingRunIsRun | indexer/main.cpp:175-177 | the open run is the longest suffix of token characters |
| Text.Buffered | indexer/main.cpp:176-177 | a buffered token holds at most MAX_TOKEN_LEN − 1 characters |
| Text.BufferedStep | indexer/main.cpp:176-177 | the buffer takes one more lower-cased character while it has room, and drops it otherwise |
| Text.ClosedRunsAreRuns | indexer/main.cpp:172-188 | every emitted run is a non-empty maximal run of is_valid_char characters |
| Text.OpenRunDropped | indexer/main.cpp:172-188 | a run still open at the end of the text is never emitted |
| Text.SeparatorClosesRun | indexer/main.cpp:178-186 | a character that is not a token character closes the run before it, if there is one |
| Text.CommitValid | indexer/main.cpp:179-182 | a committed term is non-empty, fits the token buffer, and is made of NUL-free token characters |
| Text.TokensAreTerms | indexer/main.cpp:172-188 | every term of a text is non-empty, at most 63 characters long and free of NUL |
| Text.Tokens | indexer/main.cpp:172-188 | definition of the terms process_html commits: the closed runs of the text before its first NUL, each lower-cased, cut to 63 characters and stemmed, in order |
| Text.RunsStep | indexer/main.cpp:172-188 | the closed and open runs after one more character follow NextRuns |
| HtmlFilter.Initial | indexer/main.cpp:161 | the zero-initialised state is outside tags, script and style |
| HtmlFilter.CString | indexer/main.cpp:85-87 | strcmp sees the buffer's bytes up to its first NUL |
| HtmlFilter.Filter | indexer/main.cpp:67-97 | html_filter_char returns 0 or the character itself, and keeps the tag buffer well formed |
| HtmlFilter.TagChar | indexer/main.cpp:76-81 | inside a tag, `/` and stored letters keep the buffer well formed and the tag open |
| HtmlFilter.EndOfTag | indexer/main.cpp:83-89 | `>` closes the tag and keeps the buffer well formed |
| HtmlFilter.TextPassesThrough | indexer/main.cpp:93-96 | outside tags, script and style, a character other than `<` passes through and the state is unchanged |
| HtmlFilter.MarkupIsDropped | indexer/main.cpp:68-94 | `<`, every character inside a tag, and everything inside script or style returns 0 |
| HtmlFilter.LessThanOpensTag | indexer/main.cpp:68-73 | `<` opens a tag, empties the length and clears is_closing |
| HtmlFilter.StoreContents | indexer/main.cpp:78-80 | tag letters are stored in order, each followed by a NUL |
| HtmlFilter.ReadLetters | indexer/main.cpp:75-90 | letters inside a tag are stored in order and return 0 |
| HtmlFilter.FilterAllAppend | indexer/main.cpp:67-97 | filtering a + b character by character is filtering a, then b from the state a leaves |
| HtmlFilter.TagOpening | indexer/main.cpp:68-77 | `<` and an optional `/` open a tag with no letters read yet, with is_closing set by the `/`, and return 0 |
| HtmlFilter.OpenTag | indexer/main.cpp:68-90 | after `<`, an optional `/` and letters, the tag is open and its name is the letters, lower-cased |
| HtmlFilter.NameInBuffer | indexer/main.cpp:78-80 | letters stored from the start of the buffer are what strcmp compares, lower-cased |
| HtmlFilter.WholeTag | indexer/main.cpp:83-89 | after a whole tag `<name>` or `</name>` the tag is closed, and the script or style flag follows the tag |
| HtmlFilter.ScriptTagOpens | indexer/main.cpp:85-86 | `<script>` sets the script flag |
| HtmlFilter.ScriptTagCloses | indexer/main.cpp:85-86 | `</script>` clears the script flag |
| HtmlFilter.ReadNameless | indexer/main.cpp:75-90 | characters inside a tag that are not letters, `<`, `>` or `/` change nothing and return 0 |
| HtmlFilter.NamelessTagReusesLastName | indexer/main.cpp:68-89 | as written: a tag without letters is compared under the previous tag's name |
| HtmlFilter.CommentAfterScriptHidesText | indexer/main.cpp:68-94 | as written: after `</script>`, `<!---->x` drops the `x` |
| HtmlFilter.FilterCleared | indexer/main.cpp:67-97 | corrected filter: `<` also empties the tag name, and the result is still 0 or the character |
| HtmlFilter.NamelessTagChangesNothing | indexer/main.cpp:68-89 | corrected: a tag without letters leaves the script and style flags as they were |
| HtmlFilter.CommentKeepsText | indexer/main.cpp:68-96 | corrected: outside script and style, the `x` after `<!---->` passes through |
| HtmlFilter.HtmlState.constructor | indexer/main.cpp:161 | `HtmlState st = {}`: the state is the initial one |
| HtmlFilter.HtmlState.FilterChar | indexer/main.cpp:67-97 | the method updates the fields and returns exactly what Filter gives |
| HtmlFilter.HtmlState.ReadTagChar | indexer/main.cpp:75-90 | the inside-tag branch updates the fields as Filter does |
| HtmlFilter.HtmlState.StoreTagChar | indexer/main.cpp:76-81 | the `/` and letter branch updates the fields as TagChar does |
| HtmlFilter.HtmlState.CloseTag | indexer/main.cpp:83-89 | the `>` branch updates the fields as EndOfTag does |
| Postings.Djb2 | indexer/main.cpp:50-53 | the djb2 accumulator is a 32-bit unsigned value |
| Postings.BucketOf | indexer/main.cpp:54 | the bucket index is below HASH_SIZE |
| Postings.Hash | indexer/main.cpp:50-55 | the loop computes djb2 with 32-bit wrap-around up to the NUL, and the result is below HASH_SIZE |
| Postings.BucketStopsAtNul | indexer/main.cpp:52 | characters after a NUL do not affect the bucket |
| Postings.WithDoc | indexer/main.cpp:119-132 | definition of add_doc's effect on an entry: a listed id changes nothing, a new one is put at the head and doc_count grows by 1 |
| Postings.AddDoc | indexer/main.cpp:119-132 | add_doc changes nothing for a listed id and otherwise prepends it and bumps doc_count |
| Postings.WithDocListsOnce | indexer/main.cpp:119-132 | after add_doc the id is listed exactly once, the list stays duplicate-free, and doc_count is its length |
| Postings.WithDocIdempotent | indexer/main.cpp:119-132 | adding the same id twice is adding it once |
| Postings.Find | indexer/main.cpp:138-145 | the chain scan finds the first entry with the term, or reports that none has it |
| Postings.AddToChain | indexer/main.cpp:134-157 | definition of add_term's effect on the chain of hash(token): the first entry with the term has its freq bumped and the document added, otherwise a new entry (freq 1, the one document) is pushed at the head |
| Postings.AddToBuckets | indexer/main.cpp:134-157 | add_term keeps HASH_SIZE buckets |
| Postings.AddLeavesOtherTerms | indexer/main.cpp:134-157 | add_term does not change any other term's entry |
| Postings.AddCountsOccurrence | indexer/main.cpp:138-156 | after add_term the term's freq grows by exactly 1; a new entry starts at freq 1 with the one id |
| Postings.AddCountsNewTerms | indexer/main.cpp:147-154 | the number of entries grows by 1 exactly when the term was new |
| Postings.TermsUnique | indexer/main.cpp:134-157 | in a well-formed store each term occurs at most once in the whole table |
| Postings.AddKeepsStore | indexer/main.cpp:134-157 | add_term keeps every entry in its term's bucket, terms distinct, and entries well formed |
| Postings.AddAllCounts | indexer/main.cpp:134-157 | over a run of add_term calls for one document, a term occurring k times gains exactly k in freq (from 0 when new) and lists the document; a term not in the run keeps its entry |
| Postings.AddAllKeepsStore | indexer/main.cpp:134-157 | a run of add_term calls with terms the token buffer holds keeps the store's invariant |
| Postings.DocumentCounts | indexer/main.cpp:160-191 | for the terms of a text: k occurrences add exactly k to freq and list the document exactly once; a term not in the text keeps its entry |
| Postings.TextCounts | indexer/main.cpp:160-191 | DocumentCounts for every term at once |
| Postings.StoreUpdate | indexer/main.cpp:134-157 | replacing one bucket by a well-formed chain for that bucket keeps the store well formed |
| Postings.AddKeepsChain | indexer/main.cpp:134-157 | add_term keeps the chain of the term's bucket well formed |
| Postings.BumpKeepsChain | indexer/main.cpp:138-144 | bumping the freq and adding the document of a listed term keeps the chain well formed |
| Postings.PrependKeepsChain | indexer/main.cpp:147-156 | pushing a new term's entry at the head keeps the chain well formed |
| Postings.PostingStore.constructor | indexer/main.cpp:278 | every bucket starts empty and no term is counted |
| Postings.PostingStore.AddTerm | indexer/main.cpp:134-157 | the store after add_term is AddToBuckets of the old one; total_unique_terms grows by 1 exactly for a new term; a new entry is pushed at the head of bucket hash(token) |
| Postings.PostingStore.CommitToken | indexer/main.cpp:179-185 | committing a run NUL-terminates, stems and adds its term |
| Postings.PostingStore.Feed | indexer/main.cpp:173-187 | one character of the loop buffers it or commits the open run, as NextRuns says |
| Postings.PostingStore.CloseRun | indexer/main.cpp:178-186 | a character that is not a token character commits the open run, if there is one, and the store is what the runs so far give |
| Postings.PostingStore.BufferChar | indexer/main.cpp:176-177 | the buffer takes the lower-cased character while it has room |
| Postings.PostingStore.ProcessHtml | indexer/main.cpp:160-191 | process_html adds the terms of the text, in order, to the store; a term occurring k times gains exactly k in freq and lists the document exactly once, and every other term keeps its entry |
| JsonField.SearchPattern | indexer/main.cpp:195-196 | the search pattern is non-empty and fits the 256-byte buffer |
| JsonField.FindFrom | indexer/main.cpp:197 | strstr's position is a match of the pattern |
| JsonField.FindFromFirst | indexer/main.cpp:197 | strstr gives the first match, or reports that there is none |
| JsonField.FindFromFinds | indexer/main.cpp:197 | the first match is the one strstr gives |
| JsonField.SkipRun | indexer/main.cpp:200 | the whitespace loop passes exactly a run of spaces |
| JsonField.CopyValue | indexer/main.cpp:204-215 | the copy never writes more than buffer_size − 1 bytes nor more than it reads |
| JsonField.ValueStart | indexer/main.cpp:197-202 | the value starts right after an opening quote |
| JsonField.LocateValue | indexer/main.cpp:195-202 | the search and whitespace loop find where the value starts, or NULL |
| JsonField.CopyStep | indexer/main.cpp:205-213 | each copy step decodes one escape or copies one byte |
| JsonField.CopyInto | indexer/main.cpp:203-216 | the copy loop fills the buffer with CopyValue's bytes and NUL-terminates them, leaving the bytes after the NUL as they were |
| JsonField.ExtractField | indexer/main.cpp:194-220 | definition of what extract returns: NULL without `"field":` or without an opening quote after the spaces, otherwise the copy of the value |
| JsonField.Extract | indexer/main.cpp:194-220 | extract finds the value exactly when ExtractField does; the value then fits the buffer and is NUL-terminated with the bytes after the NUL untouched, and otherwise the whole buffer is untouched |
| JsonField.ExtractAt | indexer/main.cpp:194-220 | once the value start is found, extract returns the copy from there |
| JsonField.CopyEscaped | indexer/main.cpp:204-215 | an escaped value followed by the closing quote is copied back as the value, cut to the room in the buffer |
| JsonField.CopyEscapedStep | indexer/main.cpp:204-215 | with room left, the copy of an escaped value yields its first byte and then copies the rest |
| JsonField.OtherEscapePassesThrough | indexer/main.cpp:205-211 | an escape other than `\n`, `\t`, `\r` stands for the escaped byte itself |
| JsonField.CopyValueNoNul | indexer/main.cpp:204-215 | the copied value holds no NUL, so it is a C string |
| JsonField.ExtractOfLine | indexer/main.cpp:194-220 | a line holding `"field":`, spaces and a quoted escaped value, with no earlier match, yields that value, cut to buffer_size − 1 bytes |
| JsonField.LineValue | indexer/main.cpp:194-202 | on such a line extract copies from the byte after the opening quote |
| JsonField.ExtractAbsent | indexer/main.cpp:197-198 | without `"field":` extract returns NULL |
| Utf8.CharRoundTrip | indexer/main.cpp:252 | a code point's UTF-8 sequence announces its own length and decodes to the code point |
| Utf8.RoundTrip | indexer/main.cpp:252 | decoding an encoded term gives back its code points |
| Utf8.Injective | indexer/main.cpp:252 | different terms have different UTF-8 encodings |
| Utf8.NoZeroByte | indexer/main.cpp:252 | a NUL-free term encodes without a zero byte, so strlen measures all of it |
| Serialise.SaveForward | indexer/main.cpp:223-243 | save_forward writes the count and then title, url and oid of each document as length-prefixed strings; when the rows fit their buffers, load_forward reads back every url in document order |
| Serialise.SavedForwardLoads | indexer/main.cpp:223-243 | the forward file of rows that fit their buffers loads back as their urls |
| Serialise.WideChars | indexer/main.cpp:259 | a term of l characters is written as 4·l bytes |
| Serialise.Flatten | indexer/main.cpp:249-269 | the writer visits exactly total_unique_terms entries |
| Serialise.BucketsAreEntries | indexer/main.cpp:249-269 | every entry is written exactly once, bucket by bucket, each chain from its head |
| Serialise.FlattenDistinct | indexer/main.cpp:249-269 | the writer never visits a term twice, and every entry it visits is well formed |
| Serialise.WriteEntry | indexer/main.cpp:257-267 | one record is its head, then the ids in list order |
| Serialise.WriteChain | indexer/main.cpp:248-269 | one chain is its records, head first |
| Serialise.WriteStore | indexer/main.cpp:245-272 | the file is the header and then the buckets in index order |
| Serialise.SaveInvertedAsWritten | indexer/main.cpp:245-272 | as written: the header is total_unique_terms, which is the number of records, and each record is the wide-character term, doc_count and the ids most recent first |
| Serialise.AsWrittenUnreadable | indexer/main.cpp:245-272 | as written: the file for the one term "a" in document 0 cannot be read by load_inverted |
| Serialise.SaveInverted | indexer/main.cpp:245-272 | corrected: the file load_inverted reads back gives every entry in write order, with its UTF-8 term, freq, doc_count and ids, and the loaded table holds each entry under its UTF-8 term |
| Serialise.LoadsBack | indexer/main.cpp:245-272 | corrected: a well-formed store's file decodes to its entries and to a table holding each of them |

## Left out

- Locale-dependent library calls are not modelled directly: `iswalnum`, `iswalpha` and `towlower` are given by ASCII and Russian alphabet tables, and `isspace` is the "C" locale's. A query byte of 0x80 or more passed to `std::isspace` as a `char` is negative, which C++ leaves undefined (engine/main.cpp:183, 192); the model gives the C locale's answer, not a space. `mbstowcs` is not modelled: the text reaches the tokenizer as code points.
- The `main` functions are left out: the getline loop, the command-line and interactive query loops, the timing and statistics output (`stats.total_tokens`, `total_token_length`, `total_input_bytes`, the averages and speeds), and the `printf`/`wprintf` debug output. Only `stats.total_unique_terms` is modelled, as a field of the posting store.
- Output streams are not modelled. A search result is modelled as the values printed (counts and urls), not as the text printed.
- Opening files and an open that fails are not modelled. A file is a byte sequence, and a read past its end is an explicit error; what the engine's globals hold after such an error is left open.
- Memory management is not modelled: `new`, `delete`, `malloc`, `free` and the linked `DocNode`/`TermEntry` nodes. Chains and lists are sequences of values, so aliasing between nodes is not modelled.
- Postings.PostingStore.AddTerm: the `long long` freq and the `int` doc_count are unbounded integers, so their overflow is not modelled.
- Serialise.SaveInverted: it requires every freq, list length and id to fit the file's fields (FitsFile), which the unbounded counters do not guarantee on their own.
- Serialise.SaveForward: the document rows are given as values. How `main` fills a row is not modelled: the title `"Document %d"`, and the `$oid` and `url` fields read with extract.
- JsonField.Extract: the line and the field name are taken as NUL-free byte strings (C strings). `snprintf`'s truncation of the search pattern to 255 bytes is modelled.
- Text: digits count as token characters, because `iswalnum` includes them (indexer/main.cpp:101).
- Postings.AddDoc: a new document id is prepended to the list, as the code does (indexer/main.cpp:129-130).
- The indexer's `process_html` never calls `html_filter_char`, so markup reaches the tokenizer unfiltered. The model keeps the two apart, as the code does: `Postings.PostingStore.ProcessHtml` does not filter. The HTML filter is modelled on its own.
- The crawler, the Zipf analyser and the web front end are not part of this model.

## Findings

| source | as written | input that shows it | evidently intended | confidence | as-written member | corrected member |
|---|---|---|---|---|---|---|
| indexer/main.cpp:68-89 | `<` resets tag_len but not the tag buffer, so a tag with no letters (such as a comment) is compared under the name of the tag before it | `</script><!---->x`: the comment re-opens the script element and the `x` is dropped | a tag without letters changes neither flag | not executed | HtmlFilter.CommentAfterScriptHidesText | HtmlFilter.CommentKeepsText |
| indexer/main.cpp:245-272 | save_inverted writes each term as `int` length plus 4-byte `wchar_t`s and no freq, but load_inverted (engine/main.cpp:80-104) reads a `long long` freq and then UTF-8 bytes | one term "a" in document 0: the 24-byte file ends with a short read of doc_count | write freq, then the term's UTF-8 bytes with their length, so the engine loads every entry back | not executed | Serialise.AsWrittenUnreadable | Serialise.SaveInverted |
