# AI Resume Job Matcher — a Dafny model of the matching worker and the polling client

The system ranks an uploaded resume against a fixed catalog of ten job postings.
A client (`app.py`) uploads the PDF under `resumes/<timestamp>_<name>` and polls for
`results/<timestamp>_<name>.json`. An event-triggered worker (`Lambda_function.py`)
handles the upload. It checks the key, has the document read by OCR, joins the
`LINE` blocks, cleans and chunks the text, and extracts skills from a 16-term
vocabulary. It then builds one record per catalog job, ranks the records by
similarity score (a stable sort) and writes the list under the result key.

The model has one module per concern:

- `TextPipeline.dfy`: `clean_text`, `chunk_text`, `SKILL_KEYWORDS` and `extract_skills`, as pure functions with lemmas.
- `JobCatalog.dfy`: `JOB_DESCRIPTIONS` and `CAREER_PATHS`.
- `IngestWorker.dfy`: the non-I/O logic of `lambda_handler`. This covers the key filter, the `LINE` join, the assembly loop, the in-place stable sort, the result key and the handler itself. The loop and the sort are methods with loop invariants.
- `ResumeClient.dfy`: the client's key naming, `fetch_job_results`, the 12-attempt poll loop and the screen it leads to.
- `Protocol.dfy`: facts that need both programs. The polled key equals the written key, and which uploads pass the filter.
- `Strings.dfy`, `Wrappers.dfy`: `startswith`, `endswith`, `lower`, substring and `join` over `seq<char>`, and `Option`.

The cloud services are replaced by what they answered, passed to the handler as a `Services` value:

- the OCR block list, or a failure;
- whether the resume's embedding call returned;
- per catalog job, its score or a failure;
- whether the result write returned.

A score is `round(cosine * 100, 2)` held as a whole number of hundredths. The client sees the store as one snapshot per poll attempt.

### Behaviour of the code worth knowing

- `clean_text` does not always produce single-spaced text, and applying it twice can change the result. Whitespace runs are collapsed *before* non-ASCII runs become spaces, so `"a é b"` becomes `"a   b"`. A second pass gives `"a b"` (`TextPipeline.CleanTextNotIdempotent`, `TextPipeline.CleanTextTwiceExample`). What does hold is proved instead. The output is ASCII. Its only whitespace is `' '`. It has no space at either end. It keeps exactly the input's ASCII non-whitespace characters in order (`CleanTextKeepsContent`). It keeps the words, the maximal runs of such characters, and keeps them apart (`CleanTextKeepsWords`): a word never merges with its neighbour. Text that is already normalized is left unchanged (`CleanTextFixesNormalized`).
- In the key filter only the `.pdf` suffix test ignores case. The `resumes/` prefix test is case-sensitive (`WrongPrefixSkipped` shows that `Resumes/cv.pdf` is skipped).
- A chunk size of zero makes `range(0, n, 0)` raise `ValueError`, and a negative size yields no chunks (`ChunkText`).
- The extracted skills are a list in vocabulary order, with no duplicates, not a set (`ExtractSkills`).

## Model

| member | source | states |
|---|---|---|
| `TextPipeline.IsSpace` | Lambda_function.py:23-25 | the definition of whitespace as Python uses it: exactly the 29 code points for which `str.isspace()` holds, which is the set `\s` matches in a `str` pattern and the set `strip()` removes, well beyond ASCII whitespace; characterized by `AsciiWhitespace` |
| `TextPipeline.AsciiWhitespace` | Lambda_function.py:23-25 | an ASCII character is whitespace iff it is tab, line feed, vertical tab, form feed, carriage return, one of 0x1c-0x1f or the space |
| `TextPipeline.IsAscii` | Lambda_function.py:24 | the definition of the class `[\x00-\x7F]`: code points below 128; its complement is what line 24 replaces |
| `TextPipeline.CollapseFrom` | Lambda_function.py:23 | the result is never longer than the input; its only whitespace character is `' '`; no two whitespace characters are adjacent; inside a run (`inRun`) it does not start with whitespace |
| `TextPipeline.CollapseKeepsWords` | Lambda_function.py:23 | collapsing keeps the words of the text, in order: a whitespace run still separates them, whether one space or many |
| `TextPipeline.SplitRuns` | Lambda_function.py:23-24 | `re.split` on one-or-more characters of a class: at least one segment; no segment holds a character of the class; only the first and the last segment can be empty, so the runs between segments are maximal |
| `TextPipeline.SplitRunsText` | Lambda_function.py:23-24 | the `re.split` segments are the text between the runs: concatenated they are the input with its class characters removed, and there is one more segment than there are maximal runs |
| `TextPipeline.CollapseIsSplitJoin` | Lambda_function.py:23 | `re.sub(r'\s+', ' ', s)` equals `' '.join(re.split(r'\s+', s))`: every maximal whitespace run becomes exactly one space and the text between runs is unchanged |
| `TextPipeline.ReplaceNonAsciiFrom` | Lambda_function.py:24 | the result is all ASCII and never longer than the input; if `' '` was the input's only whitespace character, it is the result's only one too |
| `TextPipeline.ReplaceNonAsciiKeepsWords` | Lambda_function.py:24 | replacing keeps the words, in order: a non-ASCII run becomes a separator, never nothing |
| `TextPipeline.ReplaceNonAsciiIsSplitJoin` | Lambda_function.py:24 | `re.sub(r'[^\x00-\x7F]+', ' ', s)` equals `' '.join(re.split(r'[^\x00-\x7F]+', s))`: every maximal non-ASCII run becomes exactly one space (`"aééb"` gives `"a b"`) and the text between runs is unchanged |
| `TextPipeline.Strip` | Lambda_function.py:25 | the result is a contiguous slice of the input; everything outside the slice is whitespace; the slice neither starts nor ends with whitespace |
| `TextPipeline.CleanText` | Lambda_function.py:22-25 | the output is ASCII only; its only whitespace is `' '`; it has no space at either end; it is no longer than the input; empty input gives empty output |
| `TextPipeline.CleanTextKeepsContent` | Lambda_function.py:22-25 | cleaning keeps exactly the ASCII non-whitespace characters of the input, in order; only spaces are added or removed |
| `TextPipeline.CleanTextKeepsWords` | Lambda_function.py:22-25 | the output has the same words as the input, in order, where a word is a maximal run of ASCII non-whitespace characters; so no two words are merged |
| `TextPipeline.CleanTextFixesNormalized` | Lambda_function.py:22-25 | ASCII text with single spaces and no space at either end is returned unchanged |
| `TextPipeline.CleanTextNotIdempotent` | Lambda_function.py:23-24 | for ASCII non-space `a`, `b` and a non-ASCII non-space `e`, `a e b` (single spaces) cleans to `a`, three spaces, `b`, and cleaning that again gives `a b`: the output is not always single-spaced, and cleaning is not idempotent |
| `TextPipeline.CleanTextTwiceExample` | Lambda_function.py:22-25 | `"a é b"` cleans to `"a   b"`, and a second cleaning gives `"a b"` |
| `TextPipeline.Chunks` | Lambda_function.py:31 | the definition of the comprehension for a positive size; no contract of its own, characterized by `ChunksRoundTrip`, `ChunksShape` and `ChunkAt` |
| `TextPipeline.ChunksRoundTrip` | Lambda_function.py:30-31 | concatenating the chunks in order gives back the text |
| `TextPipeline.ChunksShape` | Lambda_function.py:30-31 | every chunk but the last has exactly `size` characters; the last has 1..`size`; the count is ceil(len/size) |
| `TextPipeline.ChunkAt` | Lambda_function.py:31 | chunk `i` is the slice `text[i*size:(i+1)*size]`, clipped to the text |
| `TextPipeline.ChunksEmptyIff` | Lambda_function.py:31 | there are no chunks exactly when the text is empty, which is when `chunks[0]` fails |
| `TextPipeline.ChunkText` | Lambda_function.py:30-31 | a zero size raises; a negative size gives `[]`; a positive size gives exactly `Chunks(text, size)`, so `ChunksShape` and `ChunkAt` describe the result, and those chunks concatenate back to the text |
| `TextPipeline.SkillKeywordsDistinct` | Lambda_function.py:36-40 | the vocabulary has 16 distinct terms |
| `Strings.ContainsIffOccurs` | Lambda_function.py:44 | the substring test `skill in text` holds exactly when the term occurs at some offset of the text |
| `TextPipeline.ExtractSkills` | Lambda_function.py:42-44 | a term is returned iff it is in the vocabulary and occurs in the lower-cased text; the result is a subsequence of the vocabulary, so it keeps vocabulary order, and it has no duplicates |
| `JobCatalog.CatalogTitlesDistinct` | Lambda_function.py:71-142 | the catalog has ten postings with distinct titles |
| `JobCatalog.CareerPathFor` | Lambda_function.py:195 | the definition of `CAREER_PATHS.get(title, "Career growth path")`; characterized by `CareerPathCoverage` |
| `JobCatalog.CareerPathCoverage` | Lambda_function.py:144-150 | the first five titles have their own career path; the other five get "Career growth path"; every key of the map is a catalog title |
| `IngestWorker.ShouldProcess` | Lambda_function.py:164 | the definition of the filter: the key starts with `resumes/` and its lower-cased form ends with `.pdf`; characterized by `WrongPrefixSkipped`, `WrongExtensionSkipped` and `Protocol.UploadPassesFilter` |
| `IngestWorker.WrongPrefixSkipped` | Lambda_function.py:164-166 | `other/file.pdf` and `Resumes/cv.pdf` are not processed |
| `IngestWorker.WrongExtensionSkipped` | Lambda_function.py:164-166 | `resumes/doc.txt` is not processed |
| `IngestWorker.LineTexts` | Lambda_function.py:174 | a text is among the lines iff some `LINE` block carries it; there are no more lines than blocks |
| `IngestWorker.JoinLines` | Lambda_function.py:173-175 | the definition of the newline join of the `LINE` texts; characterized by `JoinLinesRoundTrip` |
| `IngestWorker.LineTextsOfAppended` | Lambda_function.py:173-175 | a block that is not `LINE` adds nothing to the joined lines; a `LINE` block adds its text as the last line |
| `IngestWorker.SplitJoinRoundTrip` | Lambda_function.py:173 | splitting `"\n".join(parts)` on newlines gives back the parts, provided there is at least one part and none contains a newline |
| `IngestWorker.JoinLinesRoundTrip` | Lambda_function.py:173-175 | the joined OCR text splits back into exactly the texts of the `LINE` blocks, in order |
| `IngestWorker.ResumeText` | Lambda_function.py:173-177 | the definition of the text the worker matches: the newline join of the `LINE` texts, then `clean_text`; characterized by `JoinLinesRoundTrip` and `CleanText`'s contract |
| `IngestWorker.TopSkills` | Lambda_function.py:194 | the result is a prefix of the skill list with at most 5 items; it has exactly 5 when there are at least 5 skills, and is the whole list otherwise |
| `IngestWorker.MatchedSkillsFromVocabulary` | Lambda_function.py:180-194 | a record's `matched_skills` has at most five distinct vocabulary terms, each found in the text, in vocabulary order |
| `IngestWorker.MatchRecord` | Lambda_function.py:188-196 | the definition of one record: the job's fields, the score, the first ≤5 skills and the career path; characterized by `AssembleMatches` and `RankedRecords` |
| `IngestWorker.AssembleMatches` | Lambda_function.py:182-196 | fails iff some job could not be scored; otherwise gives one record per catalog job, in catalog order; each record has the job's fields, its score, the first ≤5 skills and the career path or the default |
| `IngestWorker.SwapKeepsGroups` | Lambda_function.py:199 | swapping two neighbours with different scores leaves every equal-score group in the same order |
| `IngestWorker.GroupsDeterminePermutation` | Lambda_function.py:199 | two lists whose equal-score groups all agree are permutations of each other |
| `IngestWorker.InsertAt` | Lambda_function.py:199 | one insertion step: the first i+1 records become ranked, every equal-score group keeps its order, and the records after position i stay where they were |
| `IngestWorker.SortByScore` | Lambda_function.py:199 | after the in-place sort the scores are non-increasing; records with equal scores keep their relative order (stable); the result is a permutation of the input |
| `IngestWorker.RankedRecords` | Lambda_function.py:184-199 | the ranked list still has ten records, and each carries the same skill prefix and its own title's career path |
| `IngestWorker.MatchResume` | Lambda_function.py:179-199 | succeeds iff the resume and every job could be embedded; the result is the assembled list, stably ranked |
| `IngestWorker.AfterLastSlash` | Lambda_function.py:201 | the result is a suffix of the key with no `/`, and is either the whole key or preceded by a `/`, which makes it the text after the last `/` |
| `IngestWorker.ResultKey` | Lambda_function.py:201 | the key is `results/` + the text after the last `/` of the object key (`AfterLastSlash`, the whole key if it has none) + `.json`; that middle part is slash-free and ends the object key |
| `IngestWorker.LambdaHandler` | Lambda_function.py:155-216 | the handler skips exactly the keys that fail the filter; it fails on OCR failure, on empty cleaned text (`chunks[0]`) and on any embedding or write failure, and the failure is `EmptyDocument` exactly when OCR returned and the cleaned text is empty, and otherwise `ServiceError`: an external call or a job's score computation raised; it persists iff everything succeeded, and then writes under `ResultKey` ten stably ranked records, each carrying the resume's first ≤5 skills and its career path |
| `ResumeClient.ResumeFilename` | app.py:60 | the file name is the timestamp, `_` and the uploaded name: it starts with the timestamp, the `_` sits right after it, and the rest is exactly the uploaded name |
| `ResumeClient.UploadKey` | app.py:59-61 | the upload key is `resumes/` followed by `<timestamp>_<name>` |
| `ResumeClient.PolledKey` | app.py:41 | the polled key is `results/` + the resume file name + `.json` |
| `ResumeClient.FetchJobResults` | app.py:40-46 | gives None iff the key is missing or its body does not parse; otherwise gives the parsed body |
| `ResumeClient.Truthy` | app.py:83 | the definition of Python truthiness for a parsed JSON value: null, false, zero and empty string, list or object are falsy; characterized by `NotReadyCases` |
| `ResumeClient.Ready` | app.py:83 | the definition of `if results:` on what `fetch_job_results` returned: a value, and a truthy one; characterized by `NotReadyCases` and `Protocol.PersistedResultIsReady` |
| `ResumeClient.NotReadyCases` | app.py:42-46 | a missing key, an unparsable body and an empty list all count as not ready |
| `ResumeClient.PollForResults` | app.py:75-84 | at most 12 attempts, each after one 5-second sleep; stops at the first ready fetch; the result is what the last attempt fetched; every earlier attempt was not ready; 12 attempts were made if none was ready |
| `ResumeClient.SubmitResume` | app.py:58-113 | a failed upload shows "Upload failed" without polling; otherwise results are shown iff one of the 12 snapshots is ready, and they are the first ready fetch; "still processing" means 12 attempts found nothing ready |
| `Protocol.PolledKeyIsWrittenKey` | app.py:41 | the key the client polls equals the key the worker writes (Lambda_function.py line 201) iff `<timestamp>_<name>` contains no `/` |
| `Protocol.PolledKeyIsWrittenKeyForDigitTimestamp` | app.py:59-61 | with a digit-only timestamp, the keys agree iff the uploaded name contains no `/` |
| `Protocol.UploadPassesFilter` | Lambda_function.py:164 | an uploaded file is processed iff its lower-cased name ends in `.pdf` |
| `Protocol.ResultDocument` | Lambda_function.py:206 | the serialized result is a JSON array with one element per record |
| `Protocol.RecordJson` | Lambda_function.py:188-196 | the definition of one record as `json.dumps` writes it, under the source's seven keys; no contract of its own |
| `Protocol.PersistedResultIsReady` | app.py:82-84 | a result the worker persisted for this upload stops the poll when an attempt sees it, because ten records are never the falsy empty list |

## Left out

- Bedrock embeddings (`generate_embedding`, Lambda_function.py lines 49-57) are not modelled. `cosine_similarity` (lines 62-66) and `round(score * 100, 2)` are not modelled either, being floating point. Each job's score is an input integer in hundredths, or a failure. In the source, `zip` (line 62) silently truncates vectors of unequal length and still yields a score; that score is simply one of the input scores. A zero norm makes the division at line 65 raise `ZeroDivisionError`; that is covered as "this job's score failed".
- Which text is embedded is not modelled. Only `chunks[0]`, the first 500 characters, is sent for the resume; the model keeps only whether that call returned.
- Textract, `s3.put_object`, `s3.upload_fileobj` and `s3.get_object` are foreign services. They appear as inputs: the block list or a failure, a "write returned" flag, an "upload returned" flag and one store snapshot per poll attempt.
- Bucket names are left out. The model has a single bucket, shared by both sides.
- `urllib.parse.unquote_plus` and the event dictionary traversal are left out. The handler takes the decoded object key.
- `json.dumps` and `json.loads` are represented only by `ResultDocument` and the `Json` values a snapshot holds. Numbers are whole hundredths rather than floats.
- `Strings.Lower`: lower-cases ASCII letters only, unlike Python's full Unicode `str.lower`. For the `.pdf` test this makes no difference, because no non-ASCII character lower-cases to one of `.`, `p`, `d`, `f`.
- `TextPipeline.ExtractSkills`: matches over ASCII lower-casing. This is exact on the cleaned, ASCII-only text the handler passes in. On arbitrary text it can differ, for example for the Kelvin sign.
- Streamlit rendering, `.env` loading and `st.stop` are not modelled. Neither are the per-job markdown and the exact message texts. Exceptions raised while rendering would also show as "Upload failed"; that is not modelled.
- `time.sleep` is counted as seconds slept. `datetime.now` becomes the `timestamp` input.
- `print` logging is not modelled.
- Which of several equal-score records comes first is modelled as Python's stable order. Timsort's internal steps are not modelled: the model sorts by insertion, and any stable sort gives the same list.
