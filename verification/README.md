# Healthcare bill fraud detector: a Dafny model of the bill parser and price check

This project models the core of `backend.py` of the healthcare fraud detector in
Dafny and proves properties of it. The core has three parts:

- **The two bill extractors.** `ocr_to_dataframe` reads the text recognised from
  an image. `pdf_to_dataframe` reads the text of each page of a PDF. Both cut the
  text into lines with `str.splitlines()`. Each line goes through the same
  tokenizer: commas and tabs become spaces, and the line is split on whitespace.
  With at least three tokens, the last token is read by `float()` as the billed
  price and the one before it by `int()` as the quantity. The leading tokens,
  joined by single spaces, are the item name. Any other line is skipped. Any
  exception from the image, OCR or PDF engine gives an empty record list.
- **Item-name normalization.** `strip()` then `lower()`, applied to the bill
  and to the reference table.
- **`check_fraud`.** An empty bill gives an empty result. Otherwise the
  reference table `mrp_reference(item, mrp_price)` is read. Both tables are
  normalized, and each bill record is left-joined to the table on the exact
  normalized name. Each joined row gets these columns:
  - `expected_price = mrp_price × quantity`;
  - `extra_amount = billed_mrp − expected_price`;
  - `status`: "Fraud Detected" exactly when a reference price exists and the
    extra amount is positive, otherwise "Valid".

Modules, one per concern:

| module | file | models |
|---|---|---|
| `Options` | `options.dfy` | `Option` and `Result`: absent values and failures |
| `Sequences` | `sequences.dfy` | map, filter-out-absent and flatten over sequences |
| `PyText` | `pytext.dfy` | `str.split()`, `" ".join`, `strip`, `lower`, `splitlines` |
| `Numbers` | `numbers.dfy` | `int(token)` and `float(token)` on decimal tokens, with exact decimal values |
| `Tokenizer` | `tokenizer.dfy` | the per-line tokenizer of both extractors |
| `Extractor` | `extractor.dfy` | `ocr_to_dataframe` and `pdf_to_dataframe` |
| `Reconciler`, `ReconcilerExamples` | `reconciler.dfy` | normalization, the left join and `check_fraud` |

How the outside world is represented:

- **The OCR engine's output** is an `Option<string>`. `None` means opening the
  image or recognising it raised.
- **The PDF** is an `Option<seq<PageText>>`. `None` means the file could not be
  opened. A `PageText` is `Text(s)` (the page's text), `NoText` (the engine
  returned `None`) or `Unreadable` (the engine raised).
- **The reference table** is an `Option<seq<ReferenceRow>>`. `None` means
  reading it raised; that exception reaches the caller of `check_fraud`, so the
  model returns `Failure(StoreUnavailable)`.
- **A NULL `mrp_price`** is an absent price. pandas' NaN for "no match" is an
  absent value too.
- **Prices** are exact reals.

Four consequences of the code that a reader may not expect:

- **Status.** `check_fraud` assigns one of two statuses, Valid and Fraud
  Detected. An item without a reference price is Valid and has no expected or
  extra amount.
- **Whitespace.** Normalization applies only `strip()` and `lower()`. A run of
  whitespace inside a name is kept as it is (`Reconciler.NormalizePadded`).
  The tokenizer's item names never contain such runs (`Tokenizer.CleanItem`).
- **Negative numbers.** `int()` and `float()` accept a leading minus sign, so
  a negative quantity or price is read as such and goes into the record.
- **Duplicate names.** The merge repeats a bill record once for every
  reference row with the same normalized name, in table order
  (`ReconcilerExamples.DuplicateNames`). With unique normalized names there is
  exactly one row per bill record, in bill order.

## Model

| member | source | states |
|---|---|---|
| `PyText.Split` | backend.py:83 | `str.split()`: every token is non-empty and whitespace-free, and together the tokens hold exactly the non-whitespace characters of the line, in order |
| `PyText.SplitAtSpace` | backend.py:83 | Any whitespace character is a split point: the tokens of `a + [c] + b` are those of `a` followed by those of `b`, so no token spans it |
| `PyText.SplitAtSpaceRun` | backend.py:83 | A whitespace run of any length splits like a single whitespace character |
| `PyText.SplitSpacePrefix` | backend.py:83 | Leading whitespace gives no token |
| `PyText.SplitSpaceSuffix` | backend.py:83 | Trailing whitespace gives no token |
| `PyText.Join` | backend.py:87 | `" ".join` of tokens is single-spaced and holds exactly the tokens' characters besides the separating spaces |
| `PyText.SplitJoin` | backend.py:87 | Splitting the joined item name gives back the leading tokens |
| `PyText.JoinSplit` | backend.py:87 | A single-spaced name is the join of its own tokens, so every such name can come out of the tokenizer |
| `PyText.Strip` | backend.py:87 | `strip()` leaves no whitespace at either end, keeps every non-whitespace character, and leaves a string already without edge whitespace unchanged |
| `PyText.StripKeepsInside` | backend.py:28-29 | `strip()` only removes edge whitespace: the result is a contiguous part of the input with nothing but whitespace before and after it |
| `PyText.StripPadded` | backend.py:28-29 | Stripping whitespace padding off a string whose ends are not whitespace gives exactly that string, inner whitespace runs included |
| `PyText.StripIdempotent` | backend.py:28-29 | Stripping twice is stripping once |
| `PyText.Lower` | backend.py:28-29 | `lower()` keeps the length, leaves no capital letter and changes only capital letters, each to its lower-case form |
| `PyText.LowerIdempotent` | backend.py:28-29 | Lowering twice is lowering once |
| `PyText.StripLower` | backend.py:28-29 | Stripping and lowering commute |
| `PyText.SplitLines` | backend.py:82 | `str.splitlines()`: no line contains a line boundary, and there are no more lines than characters |
| `PyText.SplitLinesBreak` | backend.py:82 | A line, one boundary character and the rest split into that line followed by the lines of the rest; a lone carriage return counts only when no line feed follows it |
| `PyText.SplitLinesCrLf` | backend.py:82 | "\r\n" ends one line, not two |
| `PyText.SplitLinesUnterminated` | backend.py:79-82 | Lines joined by newlines with a non-empty unterminated last line split back into exactly those lines; no empty line is added at the end |
| `PyText.SplitLinesTerminated` | backend.py:82 | Splitting newline-terminated lines gives back exactly those lines, in order |
| `Numbers.ParseInt` | backend.py:88 | `int(token)` accepts only an optional sign followed by digits, and the value is negative only behind a minus sign |
| `Numbers.ParseIntOfDigits` | backend.py:88 | An optional '+' or '-' followed by any digits, leading zeros included, reads as the digits' value with that sign |
| `Numbers.ParseIntText` | backend.py:88 | `int(str(q)) == q` for every integer quantity, negative ones included |
| `Numbers.ParseUnsigned` | backend.py:89 | An accepted unsigned literal is non-empty, made of digits and points, has at least one digit, has no point other than the first, and reads as a non-negative value |
| `Numbers.ParseUnsignedLiteral` | backend.py:89 | Digits, a point and digits, with digits on at least one side, read as exactly that decimal value |
| `Numbers.ParseFloat` | backend.py:89 | `float(token)` accepts only an optional sign followed by digit and point characters, and reads every token `int()` accepts as the same value |
| `Numbers.ParseFloatWellFormed` | backend.py:89-92 | Every token `float()` accepts has at least one digit and at most one point |
| `Numbers.ParseFloatRejects` | backend.py:89-92 | "." and "1.2." are rejected, as `float()` raises on both |
| `Numbers.ParseFloatOfLiteral` | backend.py:89 | An optional '+' or '-', then digits, a point and digits, read as exactly that signed decimal value |
| `Numbers.ParseFloatOfBody` | backend.py:89 | A sign in front of any accepted unsigned literal only sets the sign of its value |
| `Numbers.ParseFloatPriceText` | backend.py:89 | A price written with optional sign, whole digits and optional fraction digits reads back as exactly that decimal value |
| `Tokenizer.Separate` | backend.py:83 | Replacing commas and tabs: same length, no comma or tab left, every other character in place |
| `Tokenizer.Tokens` | backend.py:83 | The tokens of a line are `str.split()` words and none contains a comma |
| `Tokenizer.SeparatorsAreSpaces` | backend.py:83 | A comma or tab in a line has the same effect as a space |
| `Tokenizer.SeparatorRun` | backend.py:83 | A run of spaces, tabs and commas of any length is one split point: the tokens are those of each side, the same as with a single space in place of the run, and the line parses as if the run were one space |
| `Tokenizer.SeparatorPadding` | backend.py:83 | Separators at either end of a line change neither its tokens nor its record |
| `Tokenizer.TokensOfJoin` | backend.py:83 | A line that is the single-space join of comma-free words tokenizes to exactly those words |
| `Tokenizer.RecordOf` | backend.py:84-92 | A token list yields a record iff it has at least three tokens, the second-to-last reads as an int and the last as a float. The record's quantity and price are those values, and its item is clean and re-tokenizes to the leading tokens |
| `Tokenizer.ParseLine` | backend.py:83-92 | Every record the PDF tokenizer yields has a clean item name: non-empty, single-spaced, comma-free |
| `Tokenizer.ParseLineFields` | backend.py:84-90 | Fewer than three tokens yield no record. The iff rule for a record, and the item, quantity and price fields in terms of the line's tokens |
| `Tokenizer.ParseLineOcr` | backend.py:56-65 | The image tokenizer, which also strips each token, yields the same result as the PDF tokenizer on every line |
| `Tokenizer.ParseLineOfWords` | backend.py:83-90 | A clean item followed by two tokens yields a record exactly when they read as int and float, with the item unchanged |
| `Tokenizer.ParseLineText` | backend.py:83-90 | Writing a record as "item quantity price" and tokenizing the line gives the record back, for every clean item, integer and decimal price |
| `Tokenizer.ThousandsSeparatorSplitsPrice` | backend.py:83-89 | A price with a thousands comma ("1,250.00") is misread: the quantity joins the item, the digits before the comma become the quantity, those after it the price |
| `Extractor.ExtractLines` | backend.py:82-92 | The PDF loop collects at most one record per line |
| `Extractor.ExtractedRecords` | backend.py:82-90 | Every collected record is the record of one of the lines, and its item is clean |
| `Extractor.ExtractLinesOcr` | backend.py:55-65 | The image loop collects the same records as the PDF loop from the same lines |
| `Extractor.ExtractLinesAppend` | backend.py:82-92 | Records keep line order, and a line's record does not depend on the other lines |
| `Extractor.ExtractSkipsUnparsed` | backend.py:84-92 | A line without a record is skipped without disturbing the records of the lines around it |
| `Extractor.ExtractAllParsed` | backend.py:82-90 | When every line parses there is one record per line, in line order |
| `Extractor.OcrToRecords` | backend.py:50-69 | A failing image or OCR engine gives no records. Otherwise the records are those of the recognised text's lines |
| `Extractor.PageRecords` | backend.py:79-81 | A page without text contributes no records |
| `Extractor.PdfPages` | backend.py:76-95 | The page loop fails exactly when some page raises |
| `Extractor.PdfPagesAppend` | backend.py:78-92 | The records of a document are those of its first pages followed by those of the remaining pages |
| `Extractor.NoTextPageSkipped` | backend.py:79-81 | Inserting a page without text anywhere changes nothing |
| `Extractor.PdfToRecords` | backend.py:74-96 | A PDF that cannot be opened, or any page that raises, gives no records. Otherwise the records are every page's, in page order |
| `Extractor.PdfPageAgreesWithOcr` | backend.py:55-92 | A one-page PDF and an image with the same text give the same records |
| `Reconciler.Normalize` | backend.py:28-29 | A key is no longer than the name and has no whitespace at either end |
| `Reconciler.NormalizePadded` | backend.py:28-29 | A name padded with whitespace has the key of the lowered name itself, inner whitespace kept |
| `Reconciler.NormalizeBill` | backend.py:28 | The bill keeps its length and order, and each record has only its item name replaced by the name's key |
| `Reconciler.NormalizeTable` | backend.py:29 | The reference table keeps its length and order, and each row has only its name replaced by the name's key; prices are kept |
| `Reconciler.NormalizeKey` | backend.py:28-29 | A normalized name has no capital letter and no whitespace at either end |
| `Reconciler.NormalizeTrimmed` | backend.py:28 | A name as the tokenizer produces it is only lowered; its inner spaces are kept |
| `Reconciler.NormalizeIdempotent` | backend.py:28-29 | Normalizing a normalized name changes nothing |
| `Reconciler.NormalizeIgnoresCase` | backend.py:28-29 | A name and its lower-case form normalize to the same key |
| `Reconciler.NormalizeBillIdempotent` | backend.py:28 | Normalizing the bill twice is normalizing it once |
| `Reconciler.Classify` | backend.py:34-43 | A joined row keeps item, quantity and billed amount. Without a price: no expected or extra amount, Valid. With one: expected = price × quantity, expected + extra = billed, and Fraud Detected iff billed exceeds expected |
| `Reconciler.ConsistentDetermined` | backend.py:34-43 | The consistency rule fixes every computed column: two consistent rows with the same inputs are equal |
| `Reconciler.MatchingPricesMember` | backend.py:31 | A price is matched exactly when a table row with exactly the record's normalized name holds it |
| `Reconciler.MatchingPricesUnique` | backend.py:31 | With distinct names, a table row's name matches that row's price and nothing else |
| `Reconciler.JoinRecord` | backend.py:31 | A bill record is never dropped by the left join: it gives at least one row |
| `Reconciler.JoinRecordRows` | backend.py:31-43 | Each row a record gives carries it and is consistent. Its price is one a same-named table row holds, or absent when no row has that name |
| `Reconciler.JoinRecordMatched` | backend.py:31-43 | A record whose name only table row `j` has gives one row, priced from row `j` |
| `Reconciler.JoinRecordUnmatched` | backend.py:31-43 | A record whose name no table row has gives one unpriced, valid row |
| `Reconciler.LeftJoinSingle` | backend.py:31 | A one-record bill gives exactly that record's rows |
| `Reconciler.LeftJoin` | backend.py:31 | The merge has at least as many rows as the bill has records |
| `Reconciler.LeftJoinRows` | backend.py:31-43 | Every merged row is consistent and carries the item, quantity and billed amount of some bill record |
| `Reconciler.LeftJoinAppend` | backend.py:31 | Rows keep bill order, and a record's rows do not depend on the other records |
| `Reconciler.LeftJoinUnique` | backend.py:31 | With distinct names in the table, exactly one row per bill record, in bill order |
| `Reconciler.CheckFraud` | backend.py:22-45 | An empty bill gives an empty result without reading the store. Otherwise the call fails exactly when the store cannot be read, and a success has at least one row per bill record |
| `Reconciler.CheckFraudRows` | backend.py:22-45 | Every returned row is consistent and carries the normalized item, quantity and billed amount of one of the bill's records |
| `Reconciler.UniqueNamesDistinct` | init_db.py:8 | Reference names that are distinct after normalization give a normalized table without repeated names |
| `Reconciler.CheckFraudOneRowEach` | backend.py:26-45 | With unique normalized reference names, exactly one row per bill record, in bill order |
| `Reconciler.CheckFraudMatched` | backend.py:28-43 | With unique normalized names, a record normalizing like reference row `j` is classified against row `j`'s price |
| `Reconciler.CheckFraudUnmatched` | backend.py:28-43 | A record whose normalized name no reference row has is unpriced and Valid |
| `ReconcilerExamples.Overcharged` | backend.py:34-43 | 2 units billed 60.0 at 25.0 each: expected 50.0, extra 10.0, Fraud Detected, whatever the case and edge spaces of the names |
| `ReconcilerExamples.WithinPrice` | backend.py:34-43 | The same 2 units billed 40.0: extra −10.0, Valid |
| `ReconcilerExamples.UnknownItem` | backend.py:31-43 | An item the table does not list: no price, expected or extra amount, Valid |
| `ReconcilerExamples.NullPrice` | backend.py:31-43 | A listed item with a NULL price behaves like an unlisted one |
| `ReconcilerExamples.DuplicateNames` | backend.py:31-43 | Two table rows with the same normalized name repeat the bill line once per row, in table order |

## Left out

- `app.py`, the web front end, is not part of this model.
- Opening images, running Tesseract and running pdfplumber are foreign calls.
  Their output, or the fact that they raised, is an input to the model.
- SQLite access (`get_mrp_reference`) is I/O. The table's rows are an input, in
  the order the query returns them, and `None` stands for a failed read.
- `init_db.py` and the CSV loading are not modelled. Only the table's shape
  (a text name and a nullable real price) is used.
- Printing the error messages in the `except` branches is not modelled.
- The DataFrame column layout and dtypes are not modelled. The model returns
  sequences of records and rows.
- `check_fraud` overwrites the caller's `bill_df["item"]` in place. The model
  is functional: the caller's bill is unchanged, and the returned rows carry
  the normalized names.
- The reference table's item column is assumed non-NULL. A NULL name would
  normalize to NaN and never match.
- Floating point is not modelled: prices and products are exact reals, so
  rounding in `mrp_price * quantity` and in the subtraction is left out.
  That rounding can change the status when the extra amount is near zero.
  With a reference price of 0.7, quantity 3 and billed amount 2.10, Python
  computes 0.7 * 3 as 2.0999999999999996, so the extra amount is about
  4.4e-16 and the row is Fraud Detected. The model computes an extra amount
  of exactly 0 and says Valid.
- `Numbers.ParseFloat`: accepts only sign-digits-point literals. Python's
  `float()` also accepts exponents (`1e3`), `inf`, `nan`, underscores between
  digits and non-ASCII digits. The model rejects those tokens, so such a line
  is skipped here but would yield a record in Python. A `nan` or `inf` price
  is also left out because comparisons with it do not follow exact arithmetic.
- `Numbers.ParseInt`: accepts ASCII digits only. Python's `int()` also accepts
  underscores between digits and non-ASCII decimal digits, and it refuses
  inputs beyond its default limit of 4300 digits.
- `PyText.Lower`: lowers ASCII capital letters only. Python's `str.lower()`
  also lowers non-ASCII letters, some of them into several characters.
- `Tokenizer.ThousandsSeparatorSplitsPrice`: states the misreading only for
  digits after the comma written without leading zeros (`NatText`), so a
  price such as "1,050.00" is not covered.
- `Extractor.PageRecords`: gives no records for an unreadable page. It is only
  called once `PdfPages` has checked that no page raises, and
  `Extractor.PdfToRecords` turns a raising page into the empty result.
