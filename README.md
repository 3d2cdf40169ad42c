# Multimodal document chatbot: cleaner, context store and upload rules

This project models the core of a small document-question-answering web
application. Users upload PDFs, audio and images; text extracted from them is
cleaned and appended to one bounded context string; questions are answered by
a remote language model given that context. Three parts are modelled and
proved:

- `text_cleaning.dfy` (module `TextCleaning`): the text cleaner `preprocess`.
  It collapses whitespace runs, replaces characters outside the kept class by
  spaces, strips the ends and caps the result at 8000 characters plus `"..."`.
  The cleaner is pure, so it is modelled as functions and lemmas.
- `session.dfy` (module `Session`): the `Chatbot` object. It is a class whose
  method `AddContext` reassigns the `context` field. `context` is a sliding
  window of the most recent 10000 characters. `Ask` refuses without calling the
  model while the context is blank. `GetContextSummary` reports word and
  character counts. The remote model is a class `AIModel` holding a fixed
  response function and a ghost counter of calls made.
- `webapp.dfy` (module `WebApp`): the decisions inside the Flask handlers. These
  are the extension check `AllowedFile`, the folder choice `FolderFor`, the
  text produced by each converter branch and the ingest gate `ShouldIngest`,
  and the path routing `Route` for served files. The POST handler is the
  method `HandlePost`, which updates the shared chatbot.

## Behaviour worth knowing

- The cleaner keeps `!` as allowed punctuation, so `"  The sky   is blue!!! "`
  cleans to `"The sky is blue!!!"` (`TextCleaning.WorkedExample`).
- Every ingestion appends a separator space before the cleaned text, so the
  context of a fresh session starts with a space after the first ingestion.
- The cleaner is not idempotent, even on inputs without control characters.
  Replacement runs after collapsing, so `"a@@b"` gives `"a  b"`, and a second
  pass gives `"a b"` (`TextCleaning.NotIdempotent`). It is idempotent when
  nothing is replaced (`TextCleaning.PreprocessIdempotentWithoutReplacement`).
- The summary reports "No documents loaded" only for the empty context. A
  context of spaces reports its counts (`Session.SummaryOfSeparator`).
- The cleaner caps a text at 8003 characters, so one ingestion into an empty
  context gives at most 8004 characters, below the 10000-character bound
  (`Session.ExtendFromEmpty`).

## Model

| member | source | states |
|---|---|---|
| TextCleaning.Preprocess | ai_integration/data_preprocessing.py:4-22 | A missing, non-string or empty argument gives `""`. The result has at most 8003 characters. Every character is a word character, a plain space or kept punctuation. No whitespace other than `' '` survives, and none is at either end. A cleaned text of at most 8000 characters is returned unchanged. A longer one becomes its first 8000 characters followed by `"..."`, ending in `'.'`. |
| TextCleaning.Collapse | ai_integration/data_preprocessing.py:10 | Collapsing never lengthens the text, and the only whitespace it leaves is `' '`. |
| TextCleaning.CollapseNoDoubleSpace | ai_integration/data_preprocessing.py:10 | Runs are maximal: the collapsed text never has two spaces in a row. |
| TextCleaning.CollapseKeepsNonSpaces | ai_integration/data_preprocessing.py:10 | Collapsing keeps every non-whitespace character, in order. |
| TextCleaning.CollapseWordPrefix | ai_integration/data_preprocessing.py:10 | A leading whitespace-free word passes through collapsing unchanged. |
| TextCleaning.CollapseSpacePrefix | ai_integration/data_preprocessing.py:10 | A leading whitespace run becomes exactly one space. |
| TextCleaning.CollapseFixed | ai_integration/data_preprocessing.py:10 | A text whose only whitespace is single spaces is left unchanged by collapsing. |
| TextCleaning.Scrub | ai_integration/data_preprocessing.py:13 | Replacement preserves length: each character stays if it is in the kept class, otherwise it becomes exactly one space. |
| TextCleaning.ScrubFixed | ai_integration/data_preprocessing.py:13 | A text of kept characters is unchanged by replacement. |
| TextCleaning.Strip | ai_integration/data_preprocessing.py:16 | The result is a contiguous slice of the input with only whitespace removed on each side. It has no whitespace at either end, and it is empty exactly when the input is all whitespace. |
| TextCleaning.Truncate | ai_integration/data_preprocessing.py:19-20 | A text of at most 8000 characters is unchanged. A longer one becomes exactly 8003 characters: its first 8000 followed by `"..."`. |
| TextCleaning.Cleaned | ai_integration/data_preprocessing.py:10-16 | Steps 1 to 3 never lengthen the text, and every character of the result is a word character, a plain space or kept punctuation. |
| TextCleaning.CleanedFixed | ai_integration/data_preprocessing.py:10-16 | Steps 1 to 3 leave a normalized text unchanged. Normalized means clean characters, no double space and no space at either end. |
| TextCleaning.CleanedNormalized | ai_integration/data_preprocessing.py:10-16 | When nothing is replaced, steps 1 to 3 produce a normalized text. |
| TextCleaning.NormalizedIsFixedPoint | ai_integration/data_preprocessing.py:4-22 | A normalized text of at most 8000 characters is a fixed point of the cleaner. |
| TextCleaning.TruncateNormalized | ai_integration/data_preprocessing.py:19-20 | Truncating a normalized text gives a normalized fixed point of the cleaner, so a second pass leaves a truncated result alone. |
| TextCleaning.PreprocessIdempotentWithoutReplacement | ai_integration/data_preprocessing.py:10-20 | For input made only of kept characters, the output is normalized, and cleaning it again changes nothing. |
| TextCleaning.NotIdempotent | ai_integration/data_preprocessing.py:10-13 | `"a@@b"` cleans to `"a  b"`, which cleans to `"a b"`: the cleaner is not idempotent in general. |
| TextCleaning.PreprocessFourWords | ai_integration/data_preprocessing.py:10-16 | Four words of kept characters, separated and surrounded by whitespace runs, clean to the words joined by single spaces. |
| TextCleaning.WorkedExample | ai_integration/data_preprocessing.py:10-16 | `"  The sky   is blue!!! "` cleans to `"The sky is blue!!!"`. |
| Session.Window | ai_integration/chatbot.py:17-19 | Keeping the last n characters gives `min(len, n)` characters, and the result is a suffix of the input. |
| Session.Extend | ai_integration/chatbot.py:12-19 | The new context length is `min(old + 1 + len(cleaned), 10000)`, so it never exceeds 10000. The separator and the whole cleaned text always end the new context: the newest material is never cut. |
| Session.ExtendIsSuffix | ai_integration/chatbot.py:14-19 | The new context is a suffix of the old context, a space and the cleaned text. It equals that string exactly when the string fits in 10000 characters. |
| Session.ExtendGrows | ai_integration/chatbot.py:14-21 | A context within the bound never shrinks. It strictly grows while below the bound, even when the input has nothing usable. |
| Session.ExtendEmpty | ai_integration/chatbot.py:14 | Ingesting a missing or empty text into an empty context leaves `" "`. |
| Session.ExtendFromEmpty | ai_integration/chatbot.py:14-19 | One ingestion into an empty context gives `" "` followed by the cleaned text. That is at most 8004 characters, below the bound. |
| Session.ExtendAllIsWindow | ai_integration/chatbot.py:11-21 | After any sequence of ingestions, the context is the last 10000 characters of the initial context followed by everything appended. |
| Session.ExtendAllLength | ai_integration/chatbot.py:11-21 | After any sequence of ingestions, the length is `min(initial + appended, 10000)`. |
| Session.Chatbot.constructor | ai_integration/chatbot.py:6-9 | A fresh chatbot has an empty context, the bound 10000, and a new model that has not been called. |
| Session.Chatbot.AddContext | ai_integration/chatbot.py:11-21 | The new context is the window of the old context, a space and the cleaned text. The bound is kept, the length never decreases, and the cleaned text ends the context. |
| Session.Chatbot.Ask | ai_integration/chatbot.py:24-32 | A blank context gives the fixed no-content message and makes no model call. Otherwise the model is called once with the context and the question. |
| Session.AnswerText | ai_integration/chatbot.py:28-32 | A returned answer is passed on verbatim, and a reply without content gives nothing. A raised error becomes the apology prefix followed by the error's message. |
| Session.AskOutcome | ai_integration/chatbot.py:24-32 | The answer to a question is the no-content message for a blank context. Otherwise it is the model's reply, nothing when the reply has no content, or the apology with the error's message. |
| Session.AIModel.Answer | ai_integration/chatbot.py:29 | The reply is the model's response to this context and question, and exactly one call is counted. |
| Session.Chatbot.GetContextSummary | ai_integration/chatbot.py:34-41 | The summary is "No documents loaded" exactly when the context is empty. Otherwise it gives the word and character counts. |
| Session.Summary | ai_integration/chatbot.py:36-41 | The summary equals "No documents loaded" if and only if the context is the empty string. |
| Session.SummaryOfSeparator | ai_integration/chatbot.py:36-41 | A context of one space reports 0 words and 1 character. |
| Session.Words | ai_integration/chatbot.py:39 | Every whitespace-split token is non-empty and contains no whitespace. |
| Session.WordsCountStarts | ai_integration/chatbot.py:39 | The number of tokens equals the number of indices holding a non-whitespace character at the start of the text or right after whitespace: tokens are maximal runs. |
| Session.WordsCoverNonSpaces | ai_integration/chatbot.py:39 | The tokens joined together are exactly the non-whitespace characters of the context, in order. |
| Session.WordsEmptyIffBlank | ai_integration/chatbot.py:39 | There are no tokens exactly when the context is all whitespace. |
| Session.Decimal | ai_integration/chatbot.py:41 | A count is rendered as a non-empty string of decimal digits. |
| Session.DecimalRoundTrip | ai_integration/chatbot.py:41 | The decimal rendering of a count reads back as that count and has no leading zero. |
| Session.UnusableUploadScenario | ai_integration/chatbot.py:6-41 | A fresh chatbot that ingests nothing usable reports 0 words and 1 character, and still answers with the no-content message. |
| WebApp.RSplitTail | app/webapp.py:3 | The second part of splitting once on the last `'.'` contains no `'.'`, and the name ends with `'.'` followed by it. |
| WebApp.DotFreeSuffixUnique | app/webapp.py:3 | That part is the only dot-free text that follows a `'.'` at the end of the name. |
| WebApp.Lower | app/webapp.py:3 | Lower-casing keeps the length and maps each character on its own. |
| WebApp.AllowedFile | app/webapp.py:1-3 | A name is accepted exactly when a dot-free text follows its last `'.'` and lower-cases to one of pdf, wav, mp3, png, jpg or jpeg. |
| WebApp.NoDotRejected | app/webapp.py:2 | A name without `'.'` is never accepted. |
| WebApp.AllowedFileExamples | app/webapp.py:1-3 | `"a.tar.PDF"` is accepted. `"pdf.exe"` and `"x."` are rejected. |
| WebApp.FolderFor | app/webapp.py:61-68 | `pdf` goes to the PDF folder, `wav` and `mp3` to the audio folder, and `png`, `jpg` and `jpeg` to the images folder, each exactly. The general upload folder is chosen exactly for extensions outside the accepted set. |
| WebApp.FolderForAccepted | app/webapp.py:56-68 | An accepted name always gets a dedicated folder. |
| WebApp.Outcome | app/webapp.py:79-117 | One converter branch: non-blank returned text is kept, and blank text becomes the branch's placeholder. A failure gives the branch's error prefix followed by the failure's message. |
| WebApp.ExtractedText | app/webapp.py:77-117 | The text held after conversion is empty when no converter applies to the extension, and the returned text when that is not blank. Blank text becomes the placeholder of the extension's own branch: PDF, audio or image. A failure becomes that branch's `"Error processing …: "` prefix followed by the failure's message. |
| WebApp.ShouldIngest | app/webapp.py:119 | Text is ingested exactly when it is not all whitespace and does not start with `"Error"`. |
| WebApp.FailuresNeverIngested | app/webapp.py:79-120 | A converter that raises yields an `"Error processing …"` line, which the gate always rejects. |
| WebApp.PlaceholdersIngested | app/webapp.py:79-120 | A converter that finds nothing yields its "No … found/detected" placeholder, and the gate lets that placeholder through. |
| WebApp.IngestGateIff | app/webapp.py:77-120 | Text reaches the context exactly when the extension has a converter and the converter returned. The returned text must be blank (so a placeholder is used) or not start with `"Error"`. |
| WebApp.Contains | app/webapp.py:172 | The substring test holds exactly when the segment occurs at some index. |
| WebApp.RemoveAll | app/webapp.py:174-180 | Removing every occurrence of a segment never lengthens the text. Its result is fixed completely by `RemoveAllShortens`, which leaves the text unchanged when the segment is absent, and `RemoveAllAtFirst`, which gives the leftmost-occurrence equation. |
| WebApp.RemoveAllShortens | app/webapp.py:174 | Removal shortens the text when the segment occurs, and leaves the text unchanged when it does not. |
| WebApp.RemoveAllAtFirst | app/webapp.py:174 | Removal keeps the text before the leftmost occurrence, deletes that occurrence and continues on the rest. With the unchanged-when-absent case this fixes the result: every leftmost, non-overlapping occurrence is deleted. |
| WebApp.RemoveAllSinglePass | app/webapp.py:174 | Removal is one left-to-right pass. `"aaudio/udio/"` becomes `"audio/"`, which still contains the segment. |
| WebApp.Route | app/webapp.py:172-183 | The segments are tested anywhere in the path, in the order audio, images, pdf_management, and the first match picks the folder. The file name is then the path with every occurrence of the matched segment removed, which shortens it. With no match, the upload folder and the unchanged name are used. |
| WebApp.SegmentAfterPrefix | app/webapp.py:172-180 | A segment ending in `/` occurs in a folder prefix followed by a slash-free name exactly when it ends the prefix. |
| WebApp.RouteListedPath | app/webapp.py:148-183 | A path built for the sidebar as a folder segment followed by a listed file name routes back to that folder and that file name. |
| WebApp.Shown | app/webapp.py:134-139 | The page shows the answer `ask` returned. When `ask` returned nothing, slicing it raises, and the page shows `"Sorry, I encountered an error: "` followed by Python's message for slicing `None`. |
| WebApp.HandlePost | app/webapp.py:50-139 | The server error happens exactly when an accepted name loses its `'.'` to sanitising. The context is updated by one ingestion exactly when the gate accepts the saved upload's text, and is left as it was otherwise. The notice is none without a file, "invalid" for a rejected name, "save failed" for a failed save, "processed" with the text's length for ingested text, and "not processed" with the text otherwise. A rejected or missing file has no folder. An accepted one gets the folder of its extension, even when saving then fails. A non-blank question is stripped and answered against the updated context. When asking returns nothing (a reply without content), slicing it for the log line fails and the page shows `"Sorry, I encountered an error: "` with the error's text. The model call count rises by one exactly when a non-blank question meets a non-blank context. |

## Left out

- The remote model (`ai_integration/ai_model.py`): the OpenAI client, the prompt text and the image call are not modelled. `answer` is represented by a fixed response function that returns text, returns no content (the reply's message content may be null), or raises with a message. `answer` itself turns every exception into an `"Error: …"` string, so the apology path in `ask` needs an exception raised outside that handler. The model keeps the path all the same.
- `app/main.py` (an interactive console loop) and `app/config.py` (environment reads) are not part of this model. The chatbot hard-codes 10000 rather than reading the configured maximum context length.
- Flask plumbing is not modelled: saving the file, writing the `_extracted`, `_transcript` and `_ocr` side files, the sidebar's directory scan (lines 141-164), `render_template` and `send_from_directory`. A failed save is a boolean of the upload, and a side-file write that fails is a converter failure, as in the code.
- The werkzeug filename sanitiser is an opaque library call. Its output is an input of `WebApp.HandlePost`, and the folder extension is taken from it, as on line 58.
- WebApp.HandlePost: the flashed messages are modelled by kind, name, character count and raw text. The lower-casing of the text in the "uploaded but …" message is not modelled.
- WebApp.HandlePost: of the failures the handler around `chatbot.ask` (lines 134-139) catches, only the one from slicing a missing answer is modelled, with Python's message for it. Other exceptions escaping `ask` or the logging are not modelled.
- A converter that returns `None` behaves as one that returns `""`. Both take the placeholder branch.
- TextCleaning.IsWord: the regular-expression word class is restricted to ASCII letters, digits and `_`. Python's Unicode table also counts other letters and digits as word characters. So, for non-ASCII letters, the model replaces characters that the code keeps.
- WebApp.Lower: only ASCII letters are lower-cased. The result is exact for membership in the extension set, because no other character lower-cases to a letter of those extensions. The sanitised name is ASCII in any case.
- The shared module-level chatbot and concurrent requests are not modelled.
- Debug printing is not modelled.
- The upload size limit enforced by Flask is not modelled.
