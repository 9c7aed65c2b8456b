# Flipkart product assistant: data preparation, document conversion and the card tool

This project models in Dafny the deterministic core of a product-recommendation
chat assistant built over a Flipkart catalogue. The core has three parts:

- **Data preparation** (`scripts/prepare_flipkart_dataset.py`). First come the
  text helpers: mojibake repair, whitespace cleanup, category-path and
  specification parsing, and price and rating normalisation. Then comes the
  embedding text built from each row. Last is the row pipeline: two length
  filters, de-duplication by `pid` (first occurrence kept), and the export id.
- **Document conversion** (`flipkart/data_converter.py`). `clean_value` turns
  None, NaN and ±infinity into None. `convert` maps each prepared row to a
  document with exactly eleven metadata keys.
- **The retriever tool** (`flipkart/rag_agent.py`, `flipkart_retriever_tool`).
  For the documents the retriever returned, it answers with one HTML product
  card per document, joined by newlines. With no document it answers with a
  fixed clarification text. Each card shows:
  - the first image;
  - the title, brand and URL, each with its fallback;
  - both ratings, rounded to one decimal, or "N/A";
  - both prices, truncated to an integer, or "N/A";
  - a review snippet of at most 220 characters plus "...".

Python objects are one datatype, `PyValue.Value`: None, bool, int, float
(NaN, ±infinity or a finite real), str, list, dict, or another object. The
model defines itself the Python semantics the code relies on:

- truthiness, `a or b`, `dict.get`;
- `str.strip` with Python's whitespace set, and `re.sub(r"\s+", " ", ...)`;
- `str.replace` as a left-to-right scan, `sep.join`;
- `str()` of None, bool, int and str;
- `int()` of a float, as truncation toward zero.

What the model cannot see is passed in as a `PyValue.Runtime` value of total
functions:

- the text of a finite float;
- `round(x, 1)`;
- `float()` of an int and of a str;
- `str()` of containers;
- `json.loads`, `ast.literal_eval`, and `orjson.loads` after its
  trailing-comma rewrite (the quote rewrite before it is part of the model),
  each returning None where the real one raises.

Where the code changes state step by step, the model does so too. Examples
are the `parts` loop of `safe_parse_specifications`, the `chunks` list of
`build_embedding_text`, the successive `df` reassignments of the pipeline
(`df[mask]`, `drop_duplicates`) and the tool's `formatted` loop. Each of these
is a method proved equal to a specification function, and the properties are
proved about that function.

The tool formats whatever the retriever returns, in retrieval order; it does
not rerank, sort or truncate.

Findings the proofs settled:

- **`fix_bad_encoding`, line 26.** The second pattern on line 26 is `"â€"`
  followed by the control character U+009D (the mojibake of `”`). It is not
  a bare `"â€"`. So the `"â€“"` and `"â€”"` rules on line 27 are reachable
  (`DashRuleApplies`), and a bare `"â€"` survives the repair
  (`BarePrefixSurvives`). The model keeps the code as written. What it proves
  is that none of the seven patterns, and no `"Â"`, is left.
- **`safe_price` "N/A" cases.** `safe_price` answers "N/A" in three cases:
  for None, for text reading "nan", and for any value that is not a finite
  number but whose own text is "N/A" (through the `str(x)` fallback).
  `SafePrice` states this exact if-and-only-if. `safe_rating` has the same
  kind of case: a value `float()` rejects whose own text is "N/A" is shown as
  "N/A" too, which `SafeRating` states in its own if-and-only-if.

## Model

| member | source | states |
|---|---|---|
| DataConverter.CleanValue | flipkart/data_converter.py:10-19 | the result is None exactly for None, NaN and ±infinity; any other value comes back unchanged; the result is never NaN or infinite |
| DataConverter.Cell | flipkart/data_converter.py:22-37 | a cell of a JSON line: the line's value for the column, or NaN when this line lacks a column another line has, as `read_json` fills it |
| DataConverter.CleanValueIdempotent | flipkart/data_converter.py:11-19 | cleaning twice equals cleaning once |
| DataConverter.RowMetadata | flipkart/data_converter.py:42-54 | the metadata has exactly the eleven listed keys, each equal to `clean_value` of the same-named column, so none is NaN or infinite |
| DataConverter.Convert | flipkart/data_converter.py:21-57 | it succeeds exactly when every selected column is present in some line and every row's text is a string; it then gives one document per row, in row order, with that row's `embedding_text` as content and its cleaned metadata; a failure names a column no line has, or a row whose text is not a string |
| DataConverter.FirstMissing | flipkart/data_converter.py:22-37 | finds a selected column that no line has, or says there is none |
| DataConverter.FirstNotText | flipkart/data_converter.py:39-41 | finds the first row whose text is not a string (every earlier row has string text), or says that every row has string text |
| DataConverter.EmptyFileFails | flipkart/data_converter.py:22-37 | a file without lines fails on the first selected column, `id` |
| PrepareHelpers.ApplyRulesRemoves | scripts/prepare_flipkart_dataset.py:24-28 | applying replacement rules in order, where no replacement shares a character with any pattern, leaves none of the patterns in the text |
| PrepareHelpers.ApplyRulesNoop | scripts/prepare_flipkart_dataset.py:24-28 | text that contains none of the patterns is left unchanged |
| PrepareHelpers.MojibakeRulesOk | scripts/prepare_flipkart_dataset.py:24-28 | the seven mojibake rules have non-empty patterns and replacements, and no replacement shares a character with a pattern |
| PrepareHelpers.ApplyRules | scripts/prepare_flipkart_dataset.py:24-28 | the rules are applied in list order, each to the whole text; ApplyRulesRemoves and ApplyRulesNoop state what that guarantees |
| PrepareHelpers.FixEncoding | scripts/prepare_flipkart_dataset.py:24-29 | the repaired text contains none of the seven patterns and no `Â` |
| PrepareHelpers.FixBadEncoding | scripts/prepare_flipkart_dataset.py:20-29 | a non-string gives ""; a string is repaired, with no pattern and no `Â` left |
| PrepareHelpers.FixEncodingIdempotent | scripts/prepare_flipkart_dataset.py:20-29 | repairing twice equals repairing once |
| PrepareHelpers.FixEncodingFree | scripts/prepare_flipkart_dataset.py:24-28 | text free of every pattern is left unchanged |
| PrepareHelpers.DashRuleApplies | scripts/prepare_flipkart_dataset.py:26-27 | `â€“` becomes `-`: the line-27 rules are reachable, because line 26 replaces only `â€` followed by U+009D |
| PrepareHelpers.BarePrefixSurvives | scripts/prepare_flipkart_dataset.py:24-28 | a bare `â€` is not changed by the repair |
| PrepareHelpers.MojibakePatternsNoSpace | scripts/prepare_flipkart_dataset.py:24-28 | no pattern contains whitespace, so whitespace cleanup cannot create one |
| PrepareHelpers.CollapseStripClean | scripts/prepare_flipkart_dataset.py:138 | collapsing and stripping repaired text gives text that is stripped, has no whitespace runs and is still free of mojibake |
| PrepareHelpers.CleanText | scripts/prepare_flipkart_dataset.py:137-138 | the cleaned string has no leading or trailing whitespace, every whitespace character is a single space followed by a non-space, and no mojibake pattern is left |
| PrepareHelpers.CleanTextBasic | scripts/prepare_flipkart_dataset.py:134-139 | a non-string gives ""; otherwise the result is stripped and has no two consecutive whitespace characters |
| PrepareHelpers.CleanTextIdempotent | scripts/prepare_flipkart_dataset.py:134-139 | cleaning twice equals cleaning once |
| PrepareHelpers.SafeParseCategoryTree | scripts/prepare_flipkart_dataset.py:32-52 | a non-string or blank input gives ""; a literal list gives its first element as text, stripped, or the stripped input when the list is empty; anything else gives the stripped input; the result is always stripped |
| PrepareHelpers.ItemText | scripts/prepare_flipkart_dataset.py:92-100 | an item gives a part exactly when it is a dict with a truthy value; the part is "key: value" when the key is truthy too, the bare value otherwise |
| PrepareHelpers.SpecParts | scripts/prepare_flipkart_dataset.py:90-100 | one part per item that gives one, in item order, never more parts than items |
| PrepareHelpers.SpecPartsAppend | scripts/prepare_flipkart_dataset.py:91-100 | the parts of a concatenation are the parts of each half, in order |
| PrepareHelpers.SpecPartsAllValued | scripts/prepare_flipkart_dataset.py:91-100 | when every item is a dict with a value, there is one part per item, in item order |
| PrepareHelpers.SpecPartsNoneValued | scripts/prepare_flipkart_dataset.py:91-100 | when no item is a dict with a value, there are no parts |
| PrepareHelpers.CollectSpecParts | scripts/prepare_flipkart_dataset.py:90-100 | the loop over the items collects exactly the parts the item rule gives |
| PrepareHelpers.SpecText | scripts/prepare_flipkart_dataset.py:63-68 | a non-string or blank input gives "" |
| PrepareHelpers.SpecParsed | scripts/prepare_flipkart_dataset.py:84-101 | when the parsed object is a dict holding a `product_specification` list, the result is the item texts joined by " \| " and stripped |
| PrepareHelpers.SpecFallback | scripts/prepare_flipkart_dataset.py:103-107 | when parsing fails or the shape is unexpected, the result is the first 1500 characters of the stripped input with `=>` replaced by `:`, so it is at most 1500 long and has no `=>` |
| PrepareHelpers.SpecList | scripts/prepare_flipkart_dataset.py:84-89 | the item list when the rewritten text parses to a dict whose `product_specification` entry is a list; None when the parse fails or the shape differs |
| PrepareHelpers.SafeParseSpecifications | scripts/prepare_flipkart_dataset.py:55-107 | the procedure, with its loop over the items, computes the specification text that SpecText, SpecParsed and SpecFallback describe |
| PrepareHelpers.NormalizePrice | scripts/prepare_flipkart_dataset.py:110-119 | a missing value, or text that strips to "", "nan" or "none" in any case, gives None; otherwise the result is `float()` of the stripped text, None when that fails |
| PrepareHelpers.NormalizeRating | scripts/prepare_flipkart_dataset.py:122-131 | as for prices, with "no rating available" also giving None |
| PrepareHelpers.CellKey | scripts/prepare_flipkart_dataset.py:114-115 | the text a normaliser compares with its sentinels: `str(x)`, stripped, lower-cased |
| PrepareHelpers.RatingRefinesPrice | scripts/prepare_flipkart_dataset.py:110-131 | normalising a rating is normalising a price, except that "no rating available" gives None |
| PrepareHelpers.RatingNoneWherePriceNone | scripts/prepare_flipkart_dataset.py:110-131 | every value the price normaliser rejects, the rating normaliser rejects too |
| PreparePipeline.SelectProps | scripts/prepare_flipkart_dataset.py:187-197 | a section is selected exactly when it is listed and its line is due, and selection keeps the listed order |
| PreparePipeline.AllSectionsComplete | scripts/prepare_flipkart_dataset.py:188-197 | the five sections are all considered |
| PreparePipeline.EmittedSectionsProps | scripts/prepare_flipkart_dataset.py:187-197 | a line is emitted exactly when its field is non-empty, and the brand only when it is not "nan" in any case; the lines come in the fixed order Product, Brand, Category, Description, Specifications |
| PreparePipeline.EmittedSectionsUnfold | scripts/prepare_flipkart_dataset.py:188-197 | the emitted sections are the five conditional appends, in order |
| PreparePipeline.LinesOfAppend | scripts/prepare_flipkart_dataset.py:187-197 | appending a section appends its labelled line |
| PreparePipeline.LinesStartWithLabel | scripts/prepare_flipkart_dataset.py:188-197 | every emitted line starts with the label of its section (`Product: `, `Brand: `, ...), so it is non-empty and does not start with whitespace |
| PreparePipeline.LineEnds | scripts/prepare_flipkart_dataset.py:188-197 | a line for a stripped, non-empty field ends with a non-space character |
| PreparePipeline.LastLineEnds | scripts/prepare_flipkart_dataset.py:188-197 | for cleaned fields, the last emitted line ends with a non-space character |
| PreparePipeline.JoinedLinesStripped | scripts/prepare_flipkart_dataset.py:199 | for cleaned fields, the newline join of the lines has nothing to strip |
| PreparePipeline.EmbeddingTextIsJoin | scripts/prepare_flipkart_dataset.py:199 | for cleaned fields, the embedding text is exactly the lines joined by newlines, and each line appears at its offset |
| PreparePipeline.EmbeddingText | scripts/prepare_flipkart_dataset.py:180-199 | the embedding text has no leading or trailing whitespace, and is empty when no line is due |
| PreparePipeline.BuildEmbeddingText | scripts/prepare_flipkart_dataset.py:180-199 | the procedure that appends the due lines and joins and strips them computes the embedding text |
| PreparePipeline.ExportId | scripts/prepare_flipkart_dataset.py:221 | the id is the pid, or the uniq_id when the pid is missing |
| PreparePipeline.Prepare | scripts/prepare_flipkart_dataset.py:174-235 | given the other columns the script reads, the export succeeds exactly when the pid column exists, and then has at most as many rows as the input |
| PreparePipeline.PrepareRows | scripts/prepare_flipkart_dataset.py:174-235 | the filter, embed, filter, de-duplicate and export steps compute the prepared table of ids, embedding texts and text columns, or the KeyError when the pid column is absent |
| PreparePipeline.CandidatesProperties | scripts/prepare_flipkart_dataset.py:177-206 | what survives both filters is input rows with a name longer than 3, each with its own embedding text, longer than 80 |
| PreparePipeline.Candidates | scripts/prepare_flipkart_dataset.py:177-206 | the rows with a name longer than 3, each paired with its embedding text, kept when that text is longer than 80, in input order |
| PreparePipeline.PrepareNeedsPid | scripts/prepare_flipkart_dataset.py:209-221 | without a pid column the export fails |
| PreparePipeline.PrepareRowsValid | scripts/prepare_flipkart_dataset.py:177-222 | every exported row is an input row with a name longer than 3 characters and its own embedding text, longer than 80 |
| PreparePipeline.PrepareUniquePids | scripts/prepare_flipkart_dataset.py:209-210 | no two exported rows share a pid |
| PreparePipeline.PrepareKeepsFirsts | scripts/prepare_flipkart_dataset.py:209-210 | every candidate that is the first with its pid is exported |
| PreparePipeline.PrepareInOrder | scripts/prepare_flipkart_dataset.py:177-235 | the exported rows are input rows in input order: a subsequence of the input |
| Sequences.Map | scripts/prepare_flipkart_dataset.py:203 | applying a function to every row keeps the length and the order |
| Sequences.Filter | scripts/prepare_flipkart_dataset.py:177 | the kept rows satisfy the mask and come from the input |
| Sequences.FilterKeeps | scripts/prepare_flipkart_dataset.py:177 | no row that satisfies the mask is dropped |
| Sequences.FilterAppend | scripts/prepare_flipkart_dataset.py:177 | masking a concatenation masks each part and concatenates the results |
| Sequences.FilterSubsequence | scripts/prepare_flipkart_dataset.py:177 | the kept rows are a subsequence of the input: they keep their input order |
| Sequences.SubsequenceTrans | scripts/prepare_flipkart_dataset.py:177-212 | a subsequence of a subsequence is a subsequence, so successive filtering steps keep input order |
| Sequences.SubsequenceMap | scripts/prepare_flipkart_dataset.py:203 | applying a function to every row keeps a subsequence a subsequence |
| Sequences.KeepWhere | scripts/prepare_flipkart_dataset.py:206 | the masking procedure computes `Filter`: exactly the rows that satisfy the mask (FilterKeeps), in input order (FilterSubsequence) |
| Sequences.KeepFirst | scripts/prepare_flipkart_dataset.py:209-212 | de-duplication never gives more rows than it is given |
| Sequences.KeepFirstDistinct | scripts/prepare_flipkart_dataset.py:209-212 | after de-duplication no two rows share a key |
| Sequences.KeepFirstFrom | scripts/prepare_flipkart_dataset.py:209-212 | every kept row comes from the input |
| Sequences.KeepFirstCovers | scripts/prepare_flipkart_dataset.py:209-212 | every key of the input is still present |
| Sequences.KeepFirstKeepsFirsts | scripts/prepare_flipkart_dataset.py:209-212 | the first row with each key is kept |
| Sequences.KeepFirstPrefix | scripts/prepare_flipkart_dataset.py:209-212 | de-duplicating a prefix gives a prefix of the result, so kept rows stay in input order |
| Sequences.KeepFirstSubsequence | scripts/prepare_flipkart_dataset.py:209-212 | the kept rows are a subsequence of the input: they keep their input order |
| Sequences.DropDuplicates | scripts/prepare_flipkart_dataset.py:209-212 | the scan with a set of seen keys computes the keep-first de-duplication |
| Text.Strip | scripts/prepare_flipkart_dataset.py:138 | the result is a slice of the input with no leading or trailing whitespace |
| Text.StripCutsSpaces | scripts/prepare_flipkart_dataset.py:138 | only whitespace is cut off, on either side |
| Text.StripStripped | scripts/prepare_flipkart_dataset.py:138 | stripping stripped text changes nothing |
| Text.IsSpace | scripts/prepare_flipkart_dataset.py:138 | the whitespace set of `str.isspace`, which `\s` matches and `strip` removes |
| Text.CollapseSpaces | scripts/prepare_flipkart_dataset.py:138 | the result has no whitespace but single spaces, none next to another, is never longer, is empty only for empty input, and starts as the input does (a space for a leading run) |
| Text.CollapseKeepsNonSpaces | scripts/prepare_flipkart_dataset.py:138 | collapsing keeps every non-whitespace character, in order, and adds none |
| Text.CollapseRun | scripts/prepare_flipkart_dataset.py:138 | a non-empty run of whitespace becomes a single space |
| Text.CollapseAppend | scripts/prepare_flipkart_dataset.py:138 | collapsing a concatenation cut outside a whitespace run collapses each piece; with CollapseRun this fixes the result: non-whitespace stretches unchanged, each whitespace run between them one space |
| Text.CollapseCollapsed | scripts/prepare_flipkart_dataset.py:138 | collapsing collapsed text changes nothing |
| Text.CollapseAbsent | scripts/prepare_flipkart_dataset.py:138 | collapsing cannot create a whitespace-free pattern |
| Text.Lower | flipkart/rag_agent.py:74 | lower-casing keeps the length and maps each character |
| Text.Replace | scripts/prepare_flipkart_dataset.py:24-28 | a replacement as long as the pattern keeps the length; ReplaceAbsent and ReplaceAbsentNoop state what is left |
| Text.ReplaceAbsent | flipkart/rag_agent.py:98 | after replacing a pattern, neither it nor any text absent before and sharing no character with the replacement is present |
| Text.ReplaceAbsentNoop | scripts/prepare_flipkart_dataset.py:24-28 | replacing an absent pattern changes nothing |
| Text.JoinPlacesParts | flipkart/rag_agent.py:128 | each part appears in the join at its offset |
| Text.JoinSeparates | flipkart/rag_agent.py:128 | consecutive parts are separated by the separator |
| Text.JoinStart | scripts/prepare_flipkart_dataset.py:199 | a join starts with the first part's first character |
| Text.JoinEnd | scripts/prepare_flipkart_dataset.py:199 | a join ends with the last part's last character |
| Text.Join | flipkart/rag_agent.py:128 | no parts give ""; one part gives that part; JoinPlacesParts and JoinSeparates place the parts and separators |
| Text.Take | scripts/prepare_flipkart_dataset.py:107 | the whole text when it has at most n characters, otherwise exactly its first n characters |
| PyValue.NatToStringValue | flipkart/rag_agent.py:90 | the decimal text of a natural number reads back as that number |
| PyValue.IntToStringValue | flipkart/rag_agent.py:90 | the decimal text of an integer, with its minus sign, reads back as that integer |
| PyValue.Trunc | flipkart/rag_agent.py:90 | `int()` of a float truncates toward zero |
| PyValue.Truthy | flipkart/rag_agent.py:37-54 | Python's `bool()` of a value, which the `or` fallbacks test; FalsyValues lists the false values |
| PyValue.FalsyValues | flipkart/rag_agent.py:37-54 | exactly None, False, integer and float zero, "" and the empty list and dict are false; a NaN float is true |
| PyValue.Or | flipkart/rag_agent.py:39-54 | `a or b`: `a` when it is truthy, else `b` |
| PyValue.Get | flipkart/rag_agent.py:39-54 | `dict.get(k)`: the value for the key, None when the key is missing |
| PyValue.IsNa | scripts/prepare_flipkart_dataset.py:111 | `pd.isna` of a scalar: None or a NaN float |
| PyValue.PyStr | flipkart/rag_agent.py:74-92 | `str()` of None is "None", of a string the string itself, and of an int decimal text that reads back as that int |
| PyValue.FloatStr | flipkart/rag_agent.py:74-76 | `str()` of a float: "nan" for NaN, "inf" and "-inf" for the infinities, the runtime's text for a finite value |
| PyValue.ToFloat | flipkart/rag_agent.py:76-90 | `float()` of a bool is 1.0 or 0.0, of a float the float itself, and fails for None, a list, a dict or another object |
| PyValue.Round1 | flipkart/rag_agent.py:76 | `round(x, 1)`: NaN and the infinities are returned as they are, a finite value is rounded by the runtime |
| RagAgent.SafeRating | flipkart/rag_agent.py:70-78 | "N/A" exactly for None, for a value whose text reads "nan", for a value `float()` rejects whose text is "N/A", and for a number whose rounded text is "N/A"; a value `float()` accepts gives the text of its rounding to one decimal; any other value gives its `str()` |
| RagAgent.SafePrice | flipkart/rag_agent.py:84-92 | "N/A" exactly for None, for a value whose text reads "nan", and for a non-finite value whose text is "N/A"; a finite number gives integer text that reads back as its truncation; anything else gives its `str()` |
| RagAgent.CleanedPriceShown | flipkart/rag_agent.py:84-92 | a numeric price cell, after the converter has cleaned it, is shown as "N/A" or as the integer text of its truncation |
| RagAgent.FirstImage | flipkart/rag_agent.py:53-67 | a non-string gives ""; a string that does not start with `[` once stripped is kept unchanged; one that does gives the first element of the parsed list, or "" when the parse fails, the list is empty or the result is not a list |
| RagAgent.ReviewSnippet | flipkart/rag_agent.py:97-100 | no newline is left and the length is at most 223; a stripped one-line text of at most 220 characters is kept whole; a longer one is cut to its first 220 characters followed by "..." |
| RagAgent.NoNewlineLeft | flipkart/rag_agent.py:98 | replacing newlines by spaces and stripping leaves no newline |
| RagAgent.CardOf | flipkart/rag_agent.py:37-100 | a falsy name, brand or URL falls back to "Unknown Product", "N/A" and ""; non-empty text is shown as is; the ratings, prices, image and review go through their own rules |
| RagAgent.Meta | flipkart/rag_agent.py:37 | `d.metadata or {}`: the document's metadata, or an empty dict when it has none |
| RagAgent.Fill | flipkart/rag_agent.py:103-125 | the filled template starts with its first fixed piece |
| RagAgent.FillPlacesFields | flipkart/rag_agent.py:103-125 | each field appears right after the fixed piece before it, at its offset |
| RagAgent.Render | flipkart/rag_agent.py:103-125 | every card opens with the card `div` and the image tag |
| RagAgent.RenderPlacesFields | flipkart/rag_agent.py:103-125 | image, title, brand, both ratings, discounted then retail price, review and URL appear in template order, each after its label |
| RagAgent.Cards | flipkart/rag_agent.py:34-126 | one card per document |
| RagAgent.ToolOutput | flipkart/rag_agent.py:17-128 | no document gives the clarification text; ClarificationIffNoDocuments, AnswerOpensWithCard and AnswerPlacesCards state the rest |
| RagAgent.RetrieverTool | flipkart/rag_agent.py:17-128 | the loop over the documents computes the tool's answer: the clarification for no document, else the cards joined by newlines |
| RagAgent.AnswerOpensWithCard | flipkart/rag_agent.py:103-128 | with at least one document the answer opens with a card |
| RagAgent.OpeningsDiffer | flipkart/rag_agent.py:21-22 | the clarification and a card differ in their second character |
| RagAgent.ClarificationIffNoDocuments | flipkart/rag_agent.py:19-32 | the answer is the clarification exactly when no document was retrieved |
| RagAgent.AnswerPlacesCards | flipkart/rag_agent.py:34-128 | each document's card appears in the answer, in retrieval order, at its offset |
| RagAgent.AnswerSeparatesCards | flipkart/rag_agent.py:126-128 | consecutive cards are separated by a newline |

## Left out

- Reading and writing files: the CSV and JSON-lines input and output, `orjson.dumps`, and `reset_index`, which renumbers rows and changes no value. Tables are sequences of rows in file order.
- The cleaning and normalising `apply` calls of lines 153-171 are not a modelled procedure. Each helper is modelled, and a pipeline `Row` holds the cleaned columns. `FieldsStripped` states what cleaning guarantees about them.
- Progress bars (`tqdm`) and every `print`.
- The retriever and its `k=3` similarity search. The tool is a function of the documents the retriever returned.
- `RAGAgentBuilder`: the chat model, the agent, summarisation middleware and the checkpointer. The `@tool` decorator.
- The web app, data ingestion into the vector store, the sample download and configuration: these are I/O only.
- Float formatting, `round(x, 1)`, `float()` parsing and the three foreign parsers. These are the `Runtime` parameter, and the model makes no claim about their results. No rounding property is proved.
- pandas dtype inference. A column is typed by the values the model is given: the pipeline's text columns are strings; a cell of a converted file is a `Value`.
- The model's `Lower` maps only ASCII letters, where Python's `str.lower()` maps all of Unicode. Every comparison in the code is against an ASCII word ("nan", "none", ...), and no non-ASCII character lower-cases to an ASCII letter except U+0130 and U+212A. So `Lower` decides those comparisons as Python does for all text without those two characters.
- Python's 4300-digit limit on `int` to `str`. The truncation of a finite float fits well within it.
- HTML escaping: the card template interpolates values raw, and the model claims no escaping property.
- RagAgent.Fill: states only the opening piece; where each field lands is stated by FillPlacesFields and RenderPlacesFields.
- RagAgent.Cards: states only the number of cards; the content of each card and its place in the answer are stated by AnswerPlacesCards.
- Text.Join: states only the empty and single-part cases; offsets and separators are stated by JoinPlacesParts, JoinSeparates, JoinStart and JoinEnd.
- PreparePipeline.PrepareRows: the exported table holds the id, the embedding text and the text columns of `Row`. The `image`, price, rating and `is_FK_Advantage_product` columns of lines 228-234 are copied through unchanged by the script and are not part of `Row`.
- The KeyError that `df["uniq_id"]` raises on line 221 when the file has a pid column but no uniq_id column is not modelled: every `Row` has a uniq_id field, possibly None.
- RagAgent.ToolOutput: states only the no-document case itself; the converse and the cards' content and places are stated by ClarificationIffNoDocuments, AnswerOpensWithCard and AnswerPlacesCards.
- PrepareHelpers.ApplyRules: has no contract of its own; what applying the rules guarantees is stated by ApplyRulesRemoves and ApplyRulesNoop.
- PyValue.Truthy: has no contract of its own; FalsyValues characterises it.
- Text.Replace: states only length preservation; what is left after a replacement is stated by ReplaceAbsent and ReplaceAbsentNoop.
- PreparePipeline.Prepare: a `Row` presupposes every column the script reads. The KeyErrors raised when `product_category_tree` (line 158), `product_specifications` (line 163), a price or rating column (lines 167-171), `description` or `product_name` (lines 174-175), or `brand` or `product_url` (the export, lines 222-228) is absent are not modelled; only the missing pid column is.
