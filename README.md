# Résumé scanner: keyword partition and text extraction

This project models, in Dafny, the two self-contained pieces of logic of a
small résumé-scoring app:

- **Skill highlighting** (`highlight_skills` in app.py). The job description is
  split on whitespace. Every token longer than two characters is lower-cased,
  and the resulting keywords are deduplicated through a set. Each distinct
  keyword then goes to `matched` if it is a substring of the lower-cased
  résumé text, and to `missing` otherwise. The keyword list is a function
  (`App.KeywordsOf`, `App.JobKeywords`, `App.KeywordSet`). The loop over the
  keyword set is a method (`App.HighlightSkills`) that picks an arbitrary
  unprocessed keyword each round. Its invariant: every processed keyword is
  in exactly one of the two lists.
- **Text extraction** (parser.py). `extract_resume_text` picks the reader from
  the file name's suffix alone: `.pdf`, then `.docx`, otherwise the empty
  string. `extract_text_from_docx` joins the paragraph texts with a single
  `"\n"`. The PDF and DOCX libraries are not part of this model. What they
  would make of a file is a `Parser.Readers` value: a function giving the PDF
  text and a function giving the DOCX paragraph texts.

Module `Strings` models the Python `str` operations these use: `isspace`,
`lower`, `split()`, `in`, `endswith` and `sep.join`. Each one is given a
partner: `split()` is tied to `" ".join` and to the text it keeps, `in` to an
explicit "occurs at index i" definition, and `"\n".join` to `split("\n")`
(`Strings.SplitOn`), which the app itself never calls and which serves only
as the join's inverse.

Three behaviours of the code are worth stating:

- Suffix matching is exact and case-sensitive: "CV.PDF" gives "".
- The two result lists come in Python's set-iteration order, which the
  model leaves open.
- Matching is plain substring containment with no word boundaries, so a
  keyword such as "experience" is matched by a résumé that only says
  "Experienced".

## Model

| member | source | states |
|---|---|---|
| `Strings.IsSpace` | app.py:12 | the whitespace of `split()`: only control characters and space are whitespace, and space, tab, line feed and carriage return always are |
| `Strings.LowerChar` | app.py:12 | lower-casing maps 'A'-'Z' to 'a'-'z', leaves every other character alone, and never produces an upper-case letter or changes whitespace |
| `Strings.Lower` | app.py:12 | `s.lower()` keeps the length and lower-cases each character in place |
| `Strings.LowerIsLower` | app.py:12 | a lower-cased text has no upper-case letter, lower-casing it again changes nothing, and it is whitespace-free exactly when the original is |
| `Strings.LowerIgnoresCase` | app.py:17 | two texts that differ only in letter case lower-case to the same text |
| `Strings.Words` | app.py:12 | every token of `split()` is non-empty and holds no whitespace |
| `Strings.WordsKeepText` | app.py:12 | the tokens of `split()`, concatenated, are exactly the non-whitespace characters of the input, in order |
| `Strings.WordsOfBlank` | app.py:12 | an empty or whitespace-only text has no tokens |
| `Strings.WordsOfWord` | app.py:12 | a whitespace-free run followed by whitespace (or the end) is split off as one token |
| `Strings.WordsOfWordThenSpace` | app.py:12 | a whitespace-free word followed by a space is split off as one token |
| `Strings.WordsOfJoin` | app.py:12 | `" ".join(ws).split() == ws` for non-empty whitespace-free words |
| `Strings.Contains` | app.py:17 | `needle in text` holds exactly when the needle occurs at some index of the text, with no word boundaries |
| `Strings.EndsWith` | parser.py:13-15 | `s.endswith(suffix)` holds exactly when `s` is some string followed by `suffix`: exact and case-sensitive |
| `Strings.Join` | parser.py:10 | `sep.join(parts)`: no parts give "", the result is at least as long as the parts together, and it starts with the first part |
| `Strings.JoinLength` | parser.py:10 | joining k >= 1 parts yields their total length plus k - 1 separators |
| `Strings.SplitOn` | parser.py:10 | the inverse used to state the round trip of `"\n".join` (the source never splits): `s.split(sep)` gives at least one piece, and no piece holds the separator |
| `Strings.SplitOnJoin` | parser.py:10 | `sep.join(parts).split(sep) == parts` for one or more parts free of the separator |
| `Parser.SuffixesExclusive` | parser.py:13-16 | no file name ends in both ".pdf" and ".docx" |
| `Parser.FormatOf` | parser.py:13-18 | the name selects PDF iff it ends in ".pdf", DOCX iff it ends in ".docx", and nothing iff it ends in neither |
| `Parser.DocxText` | parser.py:8-10 | `extract_text_from_docx`: no paragraphs give "", the text holds at least all the paragraphs' characters and starts with the first paragraph |
| `Parser.ExtractResumeText` | parser.py:12-18 | ".pdf" names give the PDF reader's text, ".docx" names the paragraph join, and all other names "" |
| `Parser.ExtractorChosenByName` | parser.py:12-18 | the result depends on the file only through the reader the name selects |
| `Parser.UnsupportedNames` | parser.py:13-18 | "CV.PDF", "cv.doc" and "cv.pdfx" give ""; "cv.pdf.docx" is read as DOCX and "cv.docx.pdf" as PDF |
| `Parser.DocxTextSmall` | parser.py:10 | zero paragraphs give "" and one paragraph gives that paragraph unchanged |
| `Parser.DocxTextLength` | parser.py:10 | k >= 1 paragraphs give a text of their total length plus k - 1 |
| `Parser.DocxTextSplitsBack` | parser.py:8-10 | splitting the DOCX text at line feeds gives back the paragraphs in document order, when none holds a line feed itself |
| `App.KeywordsOf` | app.py:12 | the comprehension yields at most one keyword per token; each is longer than 2, whitespace-free and lower-case; and k is produced iff some token longer than 2 lower-cases to k |
| `App.JobKeywords` | app.py:12 | `jd_keywords` has at most one entry per token; each entry is a keyword, and k is an entry iff some token longer than 2 lower-cases to k |
| `App.KeywordSet` | app.py:12-16 | the distinct keywords are exactly the lower-cased job-description tokens longer than 2 characters |
| `App.HighlightSkills` | app.py:11-22 | a keyword is in `matched` iff it is a keyword and occurs in the lower-cased résumé, and in `missing` iff it is a keyword and does not; the lists are disjoint and duplicate-free, and together they hold as many entries as there are distinct keywords |
| `App.KeywordCountBound` | app.py:12-16 | there are no more distinct keywords than whitespace tokens |
| `App.Partition` | app.py:16-20 | the matched and missing sets are disjoint and together form the keyword set |
| `App.KeywordsAreLowerTokens` | app.py:12 | every keyword is already lower-case and is the lower-casing of a job-description token longer than 2 |
| `App.BlankJobDescription` | app.py:12-16 | an empty or whitespace-only job description has no keywords, so both lists are empty |
| `App.EmptyResume` | app.py:17-20 | an empty résumé matches nothing and every keyword is missing |
| `App.ResumeCaseIrrelevant` | app.py:17 | changing the letter case of the résumé changes neither set |
| `App.UpperCaseResume` | app.py:17 | upper-casing the whole résumé changes neither set |
| `App.SingleTokenKeyword` | app.py:12-16 | a job description that is one whitespace-free token longer than 2 has exactly that token, lower-cased, as its keyword set |
| `App.SubstringMatch` | app.py:17 | "cat" is matched by a résumé reading "Catalog": matching has no word boundaries |
| `App.SingleTokenMatched` | app.py:12-20 | a one-token job description whose keyword occurs in the lower-cased résumé has exactly that keyword matched |
| `App.PunctuationKept` | app.py:12 | the token "Python," yields the keyword "python," |
| `App.UnsupportedUploadMissesAll` | app.py:60-66 | an upload named neither ".pdf" nor ".docx" matches no keyword, and every keyword is missing |

## Left out

- The Streamlit page: title, text area, uploader, button, warnings and rendering (app.py:27-50, 82-94). This is UI.
- Writing each upload to a temporary file (app.py:55-57). This is I/O.
- The similarity score, matcher.py `calculate_similarity`. It wraps scikit-learn's TF-IDF vectoriser, its English stop-word list and cosine similarity over floating point. matcher.py is not part of this model.
- The `score * 100` scaling, the descending sort by score and the bar chart (app.py:71, 77, 99-105). This is floating-point glue and display.
- The internals of pdfminer's `extract_text` and python-docx's `Document` (parser.py:6, 9). Here they are the two functions of a `Parser.Readers` value.
- Parser.ExtractResumeText: does not model an exception raised by a reader on a corrupt file, which aborts the whole run in the source. The model's readers always return text.
- Strings.Lower: covers ASCII letters only. Python's `str.lower()` also folds non-ASCII letters, and a few of those change length. Non-ASCII characters are kept unchanged here.
- Strings.IsSpace: covers the ASCII whitespace of `str.split()` only (code points 9-13 and 28-32). Non-ASCII separators such as U+00A0 or U+2028 are treated as ordinary characters.
- App.HighlightSkills: does not fix the order of `matched` and `missing`. Python's set iteration order is unspecified, so the method picks an arbitrary keyword each round, and its contract is stated over membership and counts.
- Parser.DocxTextSplitsBack: holds only when no paragraph contains a line feed of its own. python-docx renders a line break inside a paragraph as "\n", and such a text does not split back into its paragraphs.
