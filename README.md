# Lesson-PDF image extraction and quiz description, modelled in Dafny

The repository holds AWS Lambda handlers that turn lesson PDFs into quiz
content. This project models two of them.

**The image extractor** (`lambda-functions/extractImages/lambda_function.py`):
- lists every object of the source bucket and keeps the keys ending in `.pdf`, in any letter case;
- opens each such PDF and, for every image on every page, derives the destination key
  `extracted_images/<stem>_page_<p>_image_<i>.<filetype>` and uploads the image bytes there;
- collects the text of the words whose boxes lie near the image box, joins them with spaces and
  strips the result;
- emits `{image-ref, caption}` for every image whose caption is not empty;
- lets a failure in one PDF abandon only that PDF, while a failure of the listing answers 500.

**The quiz describer** (`describeQuiz/lambda_function.py`; the file
`lambda-functions/describeQuiz/lambda_function.py` is byte-identical, so every
citation of the first applies line for line to the second):
- validates that the event carries a bucket URI and a bucket owner;
- splits the URI into bucket and key;
- builds the question-selection instruction (question 1 by default) and the user text that
  embeds it;
- invokes the model;
- answers 200 with the model's JSON, or 500 with the error message.

Modules:
- `Options` (`options.dfy`): `Option` and `Result`.
- `Strings` (`strings.dfy`): the Python string operations both handlers use, on `seq<char>`:
  `lower`, `endswith`, `split`, `join`, `strip`, `replace(p, "")`, `os.path.basename`, the stem
  of `os.path.splitext`, and `f"{n}"` for naturals.
- `Captions` (`captions.dfy`): the proximity test, with the tolerance of 50, and the caption of
  an image.
- `ExtractImages` (`extract_images.dfy`): the extractor, imperative like its source:
  - the destination bucket is a class whose `objects` map the uploads change;
  - the listing, PDF and page loops are methods with loop invariants;
  - each method is proved against the functions `PdfKeys`, `PdfRecords`, `PdfUploads`, `Run` and
    `HandlerResponse`, and the lemmas state the properties of those functions.
- `DescribeQuiz` (`describe_quiz.dfy`): the describer, which computes values only and is
  modelled with pure functions.

Modelling choices:
- **Storage and parser as data.** The extractor reads the bucket listing and the parsed PDFs as
  parameters:
  - a `Listing` is its pages of keys, or the message of the exception that ended it;
  - a `PdfOutcome` is `Unreadable`, or the parsed pages together with an optional `Failure`.
- **Where a PDF raises.** A `Failure` is the 0-based position of the image during which
  processing raised, and whether that image's upload had already happened.
- **The model call.** The describer takes the model call as a function from the request it is
  sent to a `Reply`: the parsed JSON text, or the message of the exception raised while invoking
  the model or parsing its output.
- **Proximity follows the code.** The test uses only the larger of the two start coordinates and
  the smaller of the two end coordinates on each axis, so it is symmetric:
  `Captions.NearSymmetric` proves the test is the same with the two boxes swapped. For well-formed boxes, `Captions.NearIffGrownOverlap` proves it is the overlap of
  both boxes grown by 25 on every side.
- **Keys from other directories.** The destination key uses only the basename of the PDF key, so
  PDFs of the same name in different directories write to the same keys
  (`ExtractImages.DestinationKeyIgnoresDirectory`). This is stated as a property of the code and
  not claimed as a defect.

## Model

| member | source | states |
|---|---|---|
| ExtractImages.Bucket.Put | lambda-functions/extractImages/lambda_function.py:57 | an upload stores the body under the key and leaves every other object as it was |
| ExtractImages.IsPdfKey | lambda-functions/extractImages/lambda_function.py:38 | the filter: the key, lowered, ends in `.pdf`; `IsPdfKeyIff` states it character by character |
| ExtractImages.IsPdfKeyIff | lambda-functions/extractImages/lambda_function.py:38 | a key is kept exactly when its last four characters are `.`, `p`/`P`, `d`/`D`, `f`/`F` |
| ExtractImages.ListedKeys | lambda-functions/extractImages/lambda_function.py:35-37 | the keys of the listing pages, page after page, with a page without `Contents` contributing none; `ListedKeysAppend` and `PageWithoutContentsIgnored` state it |
| ExtractImages.PdfFilter | lambda-functions/extractImages/lambda_function.py:37-39 | the keys that pass the `.pdf` test, in their order; `PdfFilterMembers` and `PdfFilterAppend` state it |
| ExtractImages.PdfKeys | lambda-functions/extractImages/lambda_function.py:34-39 | the PDF keys of a listing: `PdfFilter` of `ListedKeys`; `ListPdfKeys` proves the listing loop computes it |
| ExtractImages.PdfFilterMembers | lambda-functions/extractImages/lambda_function.py:37-39 | the filtered keys are exactly the listed keys that end in `.pdf` in any case |
| ExtractImages.PdfFilterAppend | lambda-functions/extractImages/lambda_function.py:37-39 | filtering distributes over concatenation, so the listing order is kept |
| ExtractImages.ListedKeysAppend | lambda-functions/extractImages/lambda_function.py:35-37 | the keys of consecutive listing pages are concatenated in page order |
| ExtractImages.PageWithoutContentsIgnored | lambda-functions/extractImages/lambda_function.py:36 | a listing page without `Contents` contributes no key |
| ExtractImages.ListPdfKeys | lambda-functions/extractImages/lambda_function.py:34-39 | the nested listing loop collects exactly `PdfKeys` of the listing, in listing order |
| ExtractImages.ImageName | lambda-functions/extractImages/lambda_function.py:52 | the file name: the stem of the PDF key's basename, `_page_`, the 1-based page number, `_image_`, the 1-based image number, `.` and the lowered file type |
| ExtractImages.DestinationKey | lambda-functions/extractImages/lambda_function.py:52-54 | the destination prefix followed by the file name; `DestinationKeyInjective` and `DestinationKeyIgnoresDirectory` state what it distinguishes |
| ExtractImages.ImageRef | lambda-functions/extractImages/lambda_function.py:58 | the reference `s3://` + destination bucket + `/` + destination key; `RecordsReferToUploads` ties each record's reference to an upload |
| ExtractImages.DestinationKeyInjective | lambda-functions/extractImages/lambda_function.py:52-54 | within one PDF, equal destination keys imply the same page number and image number |
| ExtractImages.NumberedNameInjective | lambda-functions/extractImages/lambda_function.py:52 | the `_page_<p>_image_<i>.` part of a name determines both numerals |
| ExtractImages.DestinationKeyIgnoresDirectory | lambda-functions/extractImages/lambda_function.py:52-54 | PDF keys with the same basename in different directories give the same destination keys |
| ExtractImages.PdfStem | lambda-functions/extractImages/lambda_function.py:52 | for a `.pdf` name with a non-dot character before the extension, the stem is the name without its last four characters |
| ExtractImages.BasenameOfExample | lambda-functions/extractImages/lambda_function.py:52 | the basename of `lessons/Fractions.PDF` is `Fractions.PDF` |
| ExtractImages.ExampleIsPdfKey | lambda-functions/extractImages/lambda_function.py:38 | an upper-case `.PDF` key is kept |
| ExtractImages.StemOfExample | lambda-functions/extractImages/lambda_function.py:52 | the stem of `Fractions.PDF` is `Fractions` |
| ExtractImages.LowerPng | lambda-functions/extractImages/lambda_function.py:52 | the file type `PNG` becomes `png` |
| ExtractImages.DestinationKeyExample | lambda-functions/extractImages/lambda_function.py:52-54 | the third image of the first page of `lessons/Fractions.PDF` goes to `extracted_images/Fractions_page_1_image_3.png`, with numbers counted from 1 |
| ExtractImages.FlatImages | lambda-functions/extractImages/lambda_function.py:50-51 | every image slot of the document, page by page and then in parser order within a page; `FlatImagesOrdered` and `PageRange` state the order |
| ExtractImages.EntryOf | lambda-functions/extractImages/lambda_function.py:52-69 | what one image yields: its destination key, its bytes and its caption; `UploadImage` and `ImageCaption` tie the loop body to it |
| ExtractImages.FlatImagesOrdered | lambda-functions/extractImages/lambda_function.py:50-51 | the images are visited page by page and then in image order; each visit carries its own page's image and words |
| ExtractImages.PageRange | lambda-functions/extractImages/lambda_function.py:50-51 | image `j` of page `p` is visited after all images of the earlier pages |
| ExtractImages.UploadImage | lambda-functions/extractImages/lambda_function.py:52-58 | the image bytes are stored under the destination key, and the returned URI names that key in the destination bucket |
| ExtractImages.ImageCaption | lambda-functions/extractImages/lambda_function.py:61-69 | the caption computed by the word loop is `Caption` of the image box and the page's words |
| ExtractImages.ProcessImage | lambda-functions/extractImages/lambda_function.py:51-74 | one image either raises, before or after its upload, or adds its upload and, when its caption is not empty, one record |
| ExtractImages.ProcessPage | lambda-functions/extractImages/lambda_function.py:51-74 | the image loop of a page keeps the running records and bucket in step with the document's images handled so far |
| ExtractImages.ProcessPages | lambda-functions/extractImages/lambda_function.py:50-74 | the page loop ends with all images handled, or halted at the image that raised |
| ExtractImages.ProcessPdf | lambda-functions/extractImages/lambda_function.py:45-77 | one PDF appends exactly its `PdfRecords` to the output and applies exactly its `PdfUploads` to the bucket, whether or not it raises |
| ExtractImages.LambdaHandler | lambda-functions/extractImages/lambda_function.py:28-88 | the handler's response is `HandlerResponse`, and the bucket ends as the start state with `HandlerUploads` applied |
| ExtractImages.HandlerUploads | lambda-functions/extractImages/lambda_function.py:30-83 | no upload when the listing raises, otherwise `RunUploads` over the PDF keys |
| ExtractImages.HandlerStatus | lambda-functions/extractImages/lambda_function.py:79-88 | status 200 exactly when the listing succeeds; status 500 exactly when the body is an error text |
| ExtractImages.EntryStep | lambda-functions/extractImages/lambda_function.py:51-74 | handling one more image appends its record and applies its upload |
| ExtractImages.Completed | lambda-functions/extractImages/lambda_function.py:45-51 | how many images are handled completely: the failure position if it lies inside the document, otherwise every image; never more than the images |
| ExtractImages.RecordOf | lambda-functions/extractImages/lambda_function.py:69-74 | one record with the image reference and caption when the caption is non-empty, none otherwise; `RecordsFromEntries` states it for a run |
| ExtractImages.RecordsOf | lambda-functions/extractImages/lambda_function.py:50-74 | the records of a run of images, in order; `RecordsOfPrefix` and `EntryStep` state how it grows |
| ExtractImages.UploadsOf | lambda-functions/extractImages/lambda_function.py:50-57 | one upload per image of a run, in order, with its key and bytes; `UploadsOfAt` states it position by position |
| ExtractImages.ApplyUploads | lambda-functions/extractImages/lambda_function.py:57 | the bucket after a sequence of uploads applied in order, each overwriting its key; `ApplyUploadsAppend` and `ApplyDistinctUploads` state it |
| ExtractImages.PdfRecords | lambda-functions/extractImages/lambda_function.py:45-77 | the records of one PDF: none for an unreadable PDF, otherwise the records of the images completed before it raised; `FailureRecords`, `CompletedRecords` and `PdfRecordsFromImages` state them |
| ExtractImages.PdfUploads | lambda-functions/extractImages/lambda_function.py:45-77 | the uploads of one PDF: those of its completed images, plus that of the failing image when its upload happened; `FailureUploads` and `CompletedUploads` state them |
| ExtractImages.DocumentOf | lambda-functions/extractImages/lambda_function.py:46-49 | the parsed outcome of a key, with a key the bucket does not hold unreadable, which is how a failed read is contained at lines 76-77 |
| ExtractImages.Run | lambda-functions/extractImages/lambda_function.py:43-77 | the output over the PDF keys: each PDF's records in key order; `RunAppend`, `RunBound` and `UnreadablePdfContained` state its properties |
| ExtractImages.RunUploads | lambda-functions/extractImages/lambda_function.py:43-77 | the uploads of each PDF in key order; `ProcessPdf` and `LambdaHandler` apply exactly these to the bucket |
| ExtractImages.HandlerResponse | lambda-functions/extractImages/lambda_function.py:79-88 | 500 with the listing error text when the listing raises, otherwise 200 with `Run` over the PDF keys; `HandlerStatus` states the status cases |
| ExtractImages.FailureRecords | lambda-functions/extractImages/lambda_function.py:45-77 | a PDF that raises at image `k` contributes the records of images before `k` only |
| ExtractImages.FailureUploads | lambda-functions/extractImages/lambda_function.py:45-77 | a PDF that raises at image `k` leaves the uploads of the images before `k`, plus image `k`'s own when it was already uploaded |
| ExtractImages.CompletedRecords | lambda-functions/extractImages/lambda_function.py:50-74 | a PDF that does not raise (or raises after its last image) contributes the records of all its images |
| ExtractImages.CompletedUploads | lambda-functions/extractImages/lambda_function.py:50-57 | such a PDF uploads every one of its images |
| ExtractImages.ApplyUploadsAppend | lambda-functions/extractImages/lambda_function.py:57 | applying two runs of uploads in turn is applying their concatenation |
| ExtractImages.RecordsFromEntries | lambda-functions/extractImages/lambda_function.py:69-74 | every record has a non-empty caption and is the reference and caption of one handled image; there are at most as many records as images |
| ExtractImages.RecordsOfPrefix | lambda-functions/extractImages/lambda_function.py:70-74 | records are only ever appended: those of the first `n` images are a prefix of all of them |
| ExtractImages.FailureKeepsEarlierRecords | lambda-functions/extractImages/lambda_function.py:45-77 | a failure inside a PDF keeps a prefix of the records the PDF would have produced without it |
| ExtractImages.PdfRecordsFromImages | lambda-functions/extractImages/lambda_function.py:50-74 | each record of a PDF is the destination URI and caption of one of its images, and the caption is non-empty; there are at most as many records as images |
| ExtractImages.RunBound | lambda-functions/extractImages/lambda_function.py:43-77 | no record of the run has an empty caption, and there are at most as many records as images in the readable PDFs |
| ExtractImages.RunAppend | lambda-functions/extractImages/lambda_function.py:43-77 | the output for two key sequences in turn is the first output followed by the second |
| ExtractImages.UnreadablePdfContained | lambda-functions/extractImages/lambda_function.py:45-77 | an unreadable PDF changes nothing: the output is that of the keys before it followed by that of the keys after it |
| ExtractImages.DistinctSlotKeys | lambda-functions/extractImages/lambda_function.py:50-54 | two different images of one PDF are uploaded under different keys |
| ExtractImages.ApplyDistinctUploads | lambda-functions/extractImages/lambda_function.py:57 | after uploads under pairwise different keys, each key holds its own body |
| ExtractImages.UploadsOfAt | lambda-functions/extractImages/lambda_function.py:51-57 | one upload per handled image, in order, with that image's key and bytes |
| ExtractImages.UploadedImagesRetrievable | lambda-functions/extractImages/lambda_function.py:50-57 | after a PDF that does not raise, every one of its images can be read back from its destination key with its own bytes |
| ExtractImages.RecordsReferToUploads | lambda-functions/extractImages/lambda_function.py:57-74 | every record's `image-ref` is the URI of an upload the same PDF made |
| Captions.Near | lambda-functions/extractImages/lambda_function.py:65-66 | on each axis the larger start is below the smaller end plus 50; `NearSymmetric` and `NearIffGrownOverlap` state what it means |
| Captions.NearTexts | lambda-functions/extractImages/lambda_function.py:62-67 | the texts of the near words in the parser's order; `NearTextsAppend`, `FarWordIgnored` and `NearTextsMembers` state its content |
| Captions.Caption | lambda-functions/extractImages/lambda_function.py:69 | the near texts joined by single spaces, then stripped; `CaptionNonEmptyIff` states when it is non-empty |
| Captions.NearSymmetric | lambda-functions/extractImages/lambda_function.py:65-66 | the proximity test gives the same answer with image and word boxes swapped |
| Captions.OverlapIsNear | lambda-functions/extractImages/lambda_function.py:65-66 | boxes that overlap are near |
| Captions.NearUnfolded | lambda-functions/extractImages/lambda_function.py:65-66 | the test is the conjunction of its eight coordinate comparisons, four per axis |
| Captions.NearIffGrownOverlap | lambda-functions/extractImages/lambda_function.py:65-66 | for well-formed boxes: nearness is both gaps below 50, which is the overlap of the two boxes grown by 25 on every side |
| Captions.FarRightIsNotNear | lambda-functions/extractImages/lambda_function.py:65-66 | a word starting 50 or more to the right of the image's right edge is not near |
| Captions.CollectNearby | lambda-functions/extractImages/lambda_function.py:62-67 | the word loop collects `NearTexts`: the texts of the near words, in word order |
| Captions.NearTextsAppend | lambda-functions/extractImages/lambda_function.py:63-67 | collecting over two runs of words concatenates what each run collects |
| Captions.FarWordIgnored | lambda-functions/extractImages/lambda_function.py:63-67 | a word that is not near contributes nothing |
| Captions.NearTextsMembers | lambda-functions/extractImages/lambda_function.py:62-67 | each collected text is the text of a near word, and the text of every near word is collected |
| Captions.CaptionNonEmptyIff | lambda-functions/extractImages/lambda_function.py:69-70 | the caption is non-empty, so a record is emitted, exactly when some near word has a non-whitespace character |
| Captions.CaptionOfSevenCentimetres | lambda-functions/extractImages/lambda_function.py:61-69 | two close words give caption `7 cm`; a far word is left out |
| Strings.NatToString | lambda-functions/extractImages/lambda_function.py:52 | the decimal numeral of a number is non-empty, all digits and without a leading zero above 9 |
| Strings.EndsWith | lambda-functions/extractImages/lambda_function.py:38 | the suffix is no longer than the text and equals its last characters; `IsPdfKeyIff` applies it to `.pdf` |
| Strings.Lower | lambda-functions/extractImages/lambda_function.py:38 | each character is lowered in place, and the length is kept |
| Strings.LastIndexOf | lambda-functions/extractImages/lambda_function.py:52 | a position of the character in the text; `LastIndexOfIsLast` states no later one exists |
| Strings.Basename | lambda-functions/extractImages/lambda_function.py:52 | the text after the last `/`, or the whole path; `BasenameIsTail` states it |
| Strings.Stem | lambda-functions/extractImages/lambda_function.py:52 | the basename before its last `.`, unless only dots precede that dot; `PdfStem` states it for `.pdf` names |
| Strings.IsSpace | lambda-functions/extractImages/lambda_function.py:69 | the characters `str.strip` removes: those Python's `str.isspace` accepts |
| Strings.StripLeft | lambda-functions/extractImages/lambda_function.py:69 | `lstrip`: never longer than the text; `StripLeftIsSuffix` states it removes exactly the leading whitespace run |
| Strings.StripRight | lambda-functions/extractImages/lambda_function.py:69 | `rstrip`: never longer than the text; `StripRightIsPrefix` states it removes exactly the trailing whitespace run |
| Strings.Strip | lambda-functions/extractImages/lambda_function.py:69 | the text with leading and trailing whitespace removed; `StripLeftIsSuffix`, `StripRightIsPrefix`, `StripEmptyIff` and `StripUnchanged` state it |
| Strings.NatToStringRoundTrip | lambda-functions/extractImages/lambda_function.py:52 | reading the printed numeral back gives the number |
| Strings.NatToStringInjective | lambda-functions/extractImages/lambda_function.py:52 | different page or image numbers print differently |
| Strings.DigitRunsAgree | lambda-functions/extractImages/lambda_function.py:52 | a numeral followed by a non-digit is recovered unambiguously |
| Strings.BasenameIsTail | lambda-functions/extractImages/lambda_function.py:52 | the basename is the slash-free tail of the path, preceded by `/` whenever it is not the whole path |
| Strings.BasenameAfterSlash | lambda-functions/extractImages/lambda_function.py:52 | any directory part before the last `/` is dropped |
| Strings.LastIndexOfIsLast | lambda-functions/extractImages/lambda_function.py:52 | the extension dot found is the last `.` of the name |
| Strings.HasNonDotIff | lambda-functions/extractImages/lambda_function.py:52 | the stem's leading-dot test holds exactly when some character is not a dot |
| Strings.StripLeftIsSuffix | lambda-functions/extractImages/lambda_function.py:69 | `lstrip` removes exactly a leading run of whitespace |
| Strings.StripRightIsPrefix | lambda-functions/extractImages/lambda_function.py:69 | `rstrip` removes exactly a trailing run of whitespace |
| Strings.StripEmptyIff | lambda-functions/extractImages/lambda_function.py:69-70 | `strip` gives the empty string exactly when the text is all whitespace |
| Strings.StripUnchanged | lambda-functions/extractImages/lambda_function.py:69 | text with no whitespace at either end is left alone |
| Strings.JoinSpaceAllSpace | lambda-functions/extractImages/lambda_function.py:69 | the space-joined text is all whitespace exactly when every piece is |
| Strings.IndexOfIsFirst | describeQuiz/lambda_function.py:42 | the split position found is the first `/` |
| Strings.Split | describeQuiz/lambda_function.py:42 | the pieces of `s.split(c)`: at least one, none containing the separator |
| Strings.Join | describeQuiz/lambda_function.py:44 | the pieces with the separator between consecutive ones; `JoinSplit` and `SplitJoin` state it as the inverse of `Split` |
| Strings.JoinSplit | describeQuiz/lambda_function.py:42-44 | joining the pieces of a split with the separator gives the string back |
| Strings.SplitJoin | describeQuiz/lambda_function.py:42-44 | splitting a join of separator-free pieces gives the pieces back |
| Strings.JoinTail | describeQuiz/lambda_function.py:42-44 | the pieces after the first, joined again, are the text after the first separator |
| Strings.RemoveAll | describeQuiz/lambda_function.py:42 | one left-to-right pass deleting non-overlapping occurrences; the result is never longer; the lemmas below state its cases |
| Strings.RemoveAllNoOccurrence | describeQuiz/lambda_function.py:42 | a string without `s3://` is left unchanged by the replacement |
| Strings.RemoveAllKeepsUnmatched | describeQuiz/lambda_function.py:42 | text inside which no occurrence starts passes through unchanged, and the scan goes on after it |
| Strings.RemoveAllLeading | describeQuiz/lambda_function.py:42 | a leading occurrence of the pattern is deleted |
| DescribeQuiz.Provided | describeQuiz/lambda_function.py:39 | Python truthiness of an optional string: present and non-empty |
| DescribeQuiz.Valid | describeQuiz/lambda_function.py:39-40 | an event is valid when both the URI and the owner are present and non-empty |
| DescribeQuiz.Stripped | describeQuiz/lambda_function.py:42 | the URI with every `s3://` deleted; `StrippedInnerScheme` shows the deletion is not only at the front |
| DescribeQuiz.SplitS3Uri | describeQuiz/lambda_function.py:42-44 | the bucket part never contains `/` |
| DescribeQuiz.SplitAtFirstSlash | describeQuiz/lambda_function.py:42-44 | bucket and key are the stripped URI before and after its first `/`; with no `/` the key is empty |
| DescribeQuiz.SplitReconstructs | describeQuiz/lambda_function.py:42-44 | bucket, `/` and key give back the stripped URI |
| DescribeQuiz.SplitRoundTrip | describeQuiz/lambda_function.py:42-44 | for a `/`-free bucket, `s3://bucket/key` splits into that bucket and key when `s3://` occurs nowhere after the scheme |
| DescribeQuiz.SplitStripped | describeQuiz/lambda_function.py:42-44 | a stripped URI `bucket/key` with a slash-free bucket splits into that bucket and key |
| DescribeQuiz.StrippedInnerScheme | describeQuiz/lambda_function.py:42 | for any `/`-free bucket, an `s3://` inside the URI is deleted too, so `s3://bucket/s3://key` strips to `bucket/key` |
| DescribeQuiz.SplitInnerScheme | describeQuiz/lambda_function.py:42-44 | for any `/`-free bucket, such a URI splits into the bucket and the inner URI's path |
| DescribeQuiz.QuestionNumber | describeQuiz/lambda_function.py:37 | an absent question number defaults to 1; a value that cannot be compared with an int raises |
| DescribeQuiz.Instruction | describeQuiz/lambda_function.py:46 | numbers up to 1 give the "first" instruction; larger numbers give an instruction as long as lead, numeral and tail together |
| DescribeQuiz.InstructionNumeral | describeQuiz/lambda_function.py:46 | for numbers above 1 the instruction is the lead, then the number's numeral, then the tail |
| DescribeQuiz.NumeralIsNotFirst | describeQuiz/lambda_function.py:46 | no number above 1 produces the "first" instruction |
| DescribeQuiz.InstructionInjective | describeQuiz/lambda_function.py:46 | two numbers give the same instruction exactly when they are equal or both at most 1 |
| DescribeQuiz.DefaultIsFirst | describeQuiz/lambda_function.py:37-46 | an event without a question number asks for the first question |
| DescribeQuiz.SecondQuestion | describeQuiz/lambda_function.py:46 | question 2 gives `Choose the 2 of these questions.` |
| DescribeQuiz.UserText | describeQuiz/lambda_function.py:72 | the fixed lead, the instruction, then the fixed prose; `UserTextInstruction` and `UserTextInjective` state it |
| DescribeQuiz.UserTextInstruction | describeQuiz/lambda_function.py:72 | the user text carries the instruction right after its fixed lead |
| DescribeQuiz.UserTextInjective | describeQuiz/lambda_function.py:72 | user texts are equal exactly when their instructions are |
| DescribeQuiz.PrepareRequest | describeQuiz/lambda_function.py:35-72 | an invalid event fails with the validation message and an incomparable question number with its `TypeError`; a request is built exactly otherwise, with the model id, format `pdf`, the URI and owner unchanged, the key part of the URI as document name, the user text of the question number and 3000 tokens |
| DescribeQuiz.RequestNamesKey | describeQuiz/lambda_function.py:42-62 | for a `/`-free bucket with no further `s3://`, a non-empty owner and a comparable question number, the request is built and names the document by the key part of `s3://bucket/key` |
| DescribeQuiz.RequestAsksForQuestion | describeQuiz/lambda_function.py:46-72 | the request for question `n` carries the user text for `n` |
| DescribeQuiz.LambdaHandler | describeQuiz/lambda_function.py:28-105 | the status is 200 or 500; a failed request answers 500 with its error, the validation message for an invalid event; otherwise the model is called with the built request, and the answer is 200 with its JSON exactly when the reply parses, and 500 with the raised message when it raises |
| DescribeQuiz.InvalidEventRejected | describeQuiz/lambda_function.py:39-40 | an invalid event never reaches the model: its response is the same whatever the model does |
| DescribeQuiz.ResponseDependsOnRequest | describeQuiz/lambda_function.py:87-98 | the response depends on the model only through its reply to the built request |
| DescribeQuiz.ValidEventOutcome | describeQuiz/lambda_function.py:87-105 | a valid event with a numeric question builds a request, and the status is 200 exactly when the model's reply to it parses |
| DescribeQuiz.MissingUri | describeQuiz/lambda_function.py:39-40 | an event without `s3_uri` is answered 500 with the validation message |
| DescribeQuiz.EmptyOwner | describeQuiz/lambda_function.py:39-40 | an empty `bucket_owner` counts as missing |

## Left out

- S3, pdfplumber and Bedrock are not called. The listing, the parsed pages, the failure point of each PDF and the model's reply are parameters. What the parser extracts, and when a service raises, is not modelled beyond that.
- `json.dumps` and `json.loads` are not modelled. Bodies are kept as records, error texts or the reply's JSON text, before serialisation indentation or escaping.
- Logging (`print`) is not modelled.
- Captions.Near: coordinates are exact reals. Floating-point rounding in the comparisons is not modelled.
- Strings.Lower: only ASCII letters are lowered. Python's `str.lower` also maps non-ASCII letters. The `.pdf` filter is unaffected, because only ASCII characters lower to `.`, `p`, `d` or `f`. Image file types with non-ASCII letters are lowered differently.
- Strings.IsSpace: is the fixed list of characters Python's `str.isspace` accepts. It is not derived from the Unicode database.
- DescribeQuiz.QuestionNumber: event values are strings, absent, integers or a value of another type. The message for another type follows CPython's `TypeError` text. Floats, booleans and non-string URIs or owners are not modelled.
- DescribeQuiz.UserText: the prompt prose after the instruction is represented by its first sentence. The other inference parameters (`topP` and `temperature`, which are floats, and the integer `topK` of 20) and the system prompt text are not modelled.
- The model's answer reaches only the 200 body. Its content, its JSON shape and the extraction of `content[0].text` are a `Reply`: parsed text, or the message of the exception.
- The describer's unused imports (`uuid`, `base64`) and its region and client set-up have no effect on the model.
- `lambda-functions/oak-pdf-processor/index.mjs` is not part of this model.
- ExtractImages.LambdaHandler, ExtractImages.ProcessPdf and the other methods that change the bucket state their effect with `old(...)`. Their contracts are connected to the pure functions that the lemmas above are stated about.
