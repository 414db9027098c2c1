/** `processFiles` of the upload panel
    (synerge-reader-frontend/src/components/FileUpload.js): validate the
    dropped files by size and MIME type, extract the text of the accepted
    ones, hand each to the page, upload the batch and label the per-file
    errors the backend reports. Extraction and the upload request are
    foreign calls; their outcomes are parameters. */
module FileUpload {
  import opened Text

  datatype FileInfo = FileInfo(name: string, size: int, mimeType: string)

  /** `20 * 1024 * 1024` bytes. */
  const MaxFileSize: int := 20 * 1024 * 1024

  const PdfType: string := "application/pdf"
  const TxtType: string := "text/plain"
  const DocxType: string := "application/vnd.openxmlformats-officedocument.wordprocessingml.document"
  const JsonType: string := "application/json"

  /** `allowedTypes`. */
  const AllowedTypes: seq<string> := [PdfType, TxtType, DocxType, JsonType]

  function TooLarge(name: string): string {
    name + " is too large (max 20MB)."
  }

  function Unsupported(name: string): string {
    name + " has an unsupported type. Please upload PDF, DOCX, or TXT only."
  }

  /** The message a file is rejected with, or None when it is accepted.
      The size is tested first, so an oversized file is never type-checked. */
  function Rejection(f: FileInfo): (r: Option<string>)
    ensures r.None? <==> f.size <= MaxFileSize && f.mimeType in AllowedTypes
    ensures f.size > MaxFileSize ==> r == Some(TooLarge(f.name))
    ensures f.size <= MaxFileSize && f.mimeType !in AllowedTypes ==> r == Some(Unsupported(f.name))
  {
    if f.size > MaxFileSize then Some(TooLarge(f.name))
    else if f.mimeType !in AllowedTypes then Some(Unsupported(f.name))
    else None
  }

  /** `validFiles` after the validation pass. */
  function ValidOf(files: seq<FileInfo>): seq<FileInfo> {
    if files == [] then []
    else ValidOf(files[..|files| - 1])
         + (if Rejection(files[|files| - 1]).None? then [files[|files| - 1]] else [])
  }

  /** `errorMessages` after the validation pass. */
  function ErrorsOf(files: seq<FileInfo>): seq<string> {
    if files == [] then []
    else ErrorsOf(files[..|files| - 1])
         + (match Rejection(files[|files| - 1]) case Some(m) => [m] case None => [])
  }

  /** The error set right after validation. */
  function ValidationError(files: seq<FileInfo>): (e: string)
    ensures e == "" <==> ErrorsOf(files) == []
  {
    var messages := ErrorsOf(files);
    if |messages| > 0 then
      ErrorsAreNonEmpty(files);
      JoinStartsWithFirst(messages, " ");
      Join(messages, " ")
    else ""
  }

  // ----- extraction -----

  /** The reader `processFiles` dispatches to. */
  datatype Reader = PdfReader | DocxReader | TxtReader | JsonReader

  /** The `if / else if / else if` chain on the type, followed by the
      separate `if` for JSON. */
  function ReaderFor(mimeType: string): (r: Option<Reader>)
    ensures r.Some? <==> mimeType in AllowedTypes
  {
    var chain :=
      if mimeType == PdfType then Some(PdfReader)
      else if mimeType == DocxType then Some(DocxReader)
      else if mimeType == TxtType then Some(TxtReader)
      else None;
    if mimeType == JsonType then Some(JsonReader) else chain
  }

  /** What a reader produced: the text, or the message of the error it
      rejected with. */
  datatype Extracted = Text(text: string) | Failed(message: string)

  /** The object passed to `onFileParsed` (the object URL is left out). */
  datatype ParsedDoc = ParsedDoc(name: string, text: string, mimeType: string)

  /** The text of one file: `textContent` stays "" when no branch applies. */
  function Content(f: FileInfo, extract: (Reader, FileInfo) -> Extracted): Extracted {
    match ReaderFor(f.mimeType)
    case None => Text("")
    case Some(r) => extract(r, f)
  }

  /** The documents parsed before the loop ended, and the message of the
      extraction error that ended it early, if any. */
  datatype Parsing = Parsing(docs: seq<ParsedDoc>, failure: Option<string>)

  /** The extraction loop over the accepted files. */
  function Parse(files: seq<FileInfo>, extract: (Reader, FileInfo) -> Extracted): (p: Parsing)
    ensures |p.docs| <= |files|
    ensures p.failure.None? ==> |p.docs| == |files|
  {
    if files == [] then Parsing([], None)
    else
      var before := Parse(files[..|files| - 1], extract);
      var f := files[|files| - 1];
      if before.failure.Some? then before
      else match Content(f, extract)
        case Text(t) => Parsing(before.docs + [ParsedDoc(f.name, t, f.mimeType)], None)
        case Failed(m) => Parsing(before.docs, Some(m))
  }

  // ----- upload -----

  /** One element of the backend's result array: `null`, or an object whose
      `error` is the empty string when absent or falsy. */
  datatype BackendResult = NullResult | Result(error: string)

  /** `result && result.error`. */
  predicate Reports(r: BackendResult) {
    r.Result? && r.error != []
  }

  /** The upload request: thrown with a message, or answered with the
      result array. */
  datatype UploadOutcome = UploadFailed(message: string) | Uploaded(results: seq<BackendResult>)

  /** `uploadErrors`, or the failure of reading `parsedDocs[index].name`
      past the end of `parsedDocs`. */
  datatype Labelling = Labelled(errors: seq<string>) | NameMissing

  /** The message of the `TypeError` thrown when `parsedDocs[index]` is
      undefined (the text V8 uses). */
  const UndefinedName: string := "Cannot read properties of undefined (reading 'name')"

  function Label(doc: ParsedDoc, r: BackendResult): string
    requires r.Result?
  {
    doc.name + ": " + r.error
  }

  /** The `forEach` over the backend results. */
  function LabelErrors(docs: seq<ParsedDoc>, results: seq<BackendResult>): (l: Labelling)
    ensures l.Labelled? ==> |l.errors| <= |results|
    ensures l.Labelled? ==> forall i :: 0 <= i < |l.errors| ==> l.errors[i] != []
  {
    if results == [] then Labelled([])
    else
      var before := LabelErrors(docs, results[..|results| - 1]);
      var i := |results| - 1;
      if before.NameMissing? || !Reports(results[i]) then before
      else if i < |docs| then Labelled(before.errors + [Label(docs[i], results[i])])
      else NameMissing
  }

  function ProcessingError(message: string): string {
    "Error processing file(s): " + message
  }

  /** The error after the upload step, from the documents parsed and the
      error the validation left. */
  function UploadError(docs: seq<ParsedDoc>, upload: UploadOutcome, validationError: string): (e: string)
    ensures e == "" ==> upload.Uploaded? && validationError == ""
  {
    match upload
    case UploadFailed(m) => ProcessingError(m)
    case Uploaded(results) =>
      match LabelErrors(docs, results)
      case NameMissing => ProcessingError(UndefinedName)
      case Labelled(errors) =>
        if |errors| > 0 then
          JoinStartsWithFirst(errors, " ");
          Join(errors, " ")
        else validationError
  }

  /** The error after a run that had accepted files, from the one the
      validation left. */
  function FinalError(files: seq<FileInfo>, extract: (Reader, FileInfo) -> Extracted, upload: UploadOutcome): (e: string)
    ensures e == "" ==>
      && ErrorsOf(files) == []
      && Parse(ValidOf(files), extract).failure.None?
      && upload.Uploaded?
  {
    var p := Parse(ValidOf(files), extract);
    if p.failure.Some? then ProcessingError(p.failure.value)
    else UploadError(p.docs, upload, ValidationError(files))
  }

  /** The state `processFiles` drives through the callbacks it is given:
      `setError`, `setIsLoading`, and the documents handed to
      `onFileParsed`, in order. */
  class UploadState {
    var error: string
    var isLoading: bool
    var delivered: seq<ParsedDoc>

    constructor()
      ensures error == "" && !isLoading && delivered == []
    {
      error := "";
      isLoading := false;
      delivered := [];
    }

    /** `processFiles(files)`. */
    method ProcessFiles(files: seq<FileInfo>, extract: (Reader, FileInfo) -> Extracted, upload: UploadOutcome)
      modifies this
      ensures ValidOf(files) == [] ==>
        error == ValidationError(files) && isLoading == old(isLoading) && delivered == old(delivered)
      ensures ValidOf(files) != [] ==>
        && error == FinalError(files, extract, upload)
        && !isLoading
        && delivered == old(delivered) + Parse(ValidOf(files), extract).docs
    {
      var validFiles, errorMessages := ValidateFiles(files);
      if |errorMessages| > 0 {
        error := Join(errorMessages, " ");
      } else {
        error := "";
      }
      if |validFiles| == 0 {
        return;
      }
      isLoading := true;

      var parsedDocs, failure := ParseFiles(validFiles, extract);
      if failure.None? {
        match upload {
          case UploadFailed(m) =>
            error := "Failed to upload documents: " + m;
            failure := Some(m);
          case Uploaded(backendResults) =>
            var labelling := CollectUploadErrors(parsedDocs, backendResults);
            match labelling {
              case NameMissing =>
                failure := Some(UndefinedName);
              case Labelled(uploadErrors) =>
                if |uploadErrors| > 0 {
                  error := Join(uploadErrors, " ");
                }
            }
        }
      }
      if failure.Some? {
        error := ProcessingError(failure.value);
      }
      isLoading := false;
    }

    /** The `for ... of validFiles` loop: extract each file's text and hand
        the parsed document to `onFileParsed`, until an extraction throws. */
    method ParseFiles(validFiles: seq<FileInfo>, extract: (Reader, FileInfo) -> Extracted)
      returns (parsedDocs: seq<ParsedDoc>, failure: Option<string>)
      modifies this
      ensures Parsing(parsedDocs, failure) == Parse(validFiles, extract)
      ensures delivered == old(delivered) + parsedDocs
      ensures error == old(error) && isLoading == old(isLoading)
    {
      parsedDocs := [];
      failure := None;
      var k := 0;
      while k < |validFiles| && failure.None?
        invariant 0 <= k <= |validFiles|
        invariant failure.None? ==> Parse(validFiles[..k], extract) == Parsing(parsedDocs, None)
        invariant failure.Some? ==> Parse(validFiles, extract) == Parsing(parsedDocs, failure)
        invariant delivered == old(delivered) + parsedDocs
        invariant error == old(error) && isLoading == old(isLoading)
        decreases |validFiles| - k
      {
        var file := validFiles[k];
        assert validFiles[..k + 1][..k] == validFiles[..k];
        var textContent := "";
        match Content(file, extract) {
          case Failed(m) =>
            failure := Some(m);
            ParseStopsAtFailure(validFiles, k + 1, extract);
          case Text(t) =>
            textContent := t;
            var parsedDoc := ParsedDoc(file.name, textContent, file.mimeType);
            parsedDocs := parsedDocs + [parsedDoc];
            delivered := delivered + [parsedDoc];
        }
        k := k + 1;
      }
      if failure.None? {
        assert validFiles[..k] == validFiles;
      }
    }
  }

  /** The `files.forEach` validation pass. */
  method ValidateFiles(files: seq<FileInfo>) returns (validFiles: seq<FileInfo>, errorMessages: seq<string>)
    ensures validFiles == ValidOf(files) && errorMessages == ErrorsOf(files)
  {
    validFiles := [];
    errorMessages := [];
    for k := 0 to |files|
      invariant validFiles == ValidOf(files[..k])
      invariant errorMessages == ErrorsOf(files[..k])
    {
      var file := files[k];
      assert files[..k + 1][..k] == files[..k];
      if file.size > MaxFileSize {
        errorMessages := errorMessages + [TooLarge(file.name)];
        continue;
      }
      if file.mimeType !in AllowedTypes {
        errorMessages := errorMessages + [Unsupported(file.name)];
        continue;
      }
      validFiles := validFiles + [file];
    }
    assert files[..|files|] == files;
  }

  /** The `backendResults.forEach` pass that collects `uploadErrors`. */
  method CollectUploadErrors(parsedDocs: seq<ParsedDoc>, backendResults: seq<BackendResult>)
    returns (labelling: Labelling)
    ensures labelling == LabelErrors(parsedDocs, backendResults)
  {
    var uploadErrors: seq<string> := [];
    for index := 0 to |backendResults|
      invariant LabelErrors(parsedDocs, backendResults[..index]) == Labelled(uploadErrors)
    {
      var result := backendResults[index];
      assert backendResults[..index + 1][..index] == backendResults[..index];
      if result.Result? && result.error != [] {
        if index < |parsedDocs| {
          uploadErrors := uploadErrors + [parsedDocs[index].name + ": " + result.error];
        } else {
          LabelStopsAtMissing(parsedDocs, backendResults, index + 1);
          return NameMissing;
        }
      }
    }
    assert backendResults[..|backendResults|] == backendResults;
    return Labelled(uploadErrors);
  }

  // ----- properties -----

  lemma {:induction false} ParseStopsAtFailure(files: seq<FileInfo>, k: nat, extract: (Reader, FileInfo) -> Extracted)
    requires k <= |files|
    requires Parse(files[..k], extract).failure.Some?
    ensures Parse(files, extract) == Parse(files[..k], extract)
    decreases |files| - k
  {
    if k < |files| {
      assert files[..k + 1][..k] == files[..k];
      ParseStopsAtFailure(files, k + 1, extract);
    } else {
      assert files[..k] == files;
    }
  }

  lemma {:induction false} LabelStopsAtMissing(docs: seq<ParsedDoc>, results: seq<BackendResult>, k: nat)
    requires k <= |results|
    requires LabelErrors(docs, results[..k]) == NameMissing
    ensures LabelErrors(docs, results) == NameMissing
    decreases |results| - k
  {
    if k < |results| {
      assert results[..k + 1][..k] == results[..k];
      LabelStopsAtMissing(docs, results, k + 1);
    } else {
      assert results[..k] == results;
    }
  }

  /** Validation splits the input: every file is counted once, either as
      accepted or by its message. */
  lemma {:induction false} PartitionCounts(files: seq<FileInfo>)
    ensures |ValidOf(files)| + |ErrorsOf(files)| == |files|
    decreases |files|
  {
    if files != [] {
      PartitionCounts(files[..|files| - 1]);
    }
  }

  /** Validation commutes with splitting the input, so accepted files and
      messages keep the input order. */
  lemma {:induction false} PartitionAppend(a: seq<FileInfo>, b: seq<FileInfo>)
    ensures ValidOf(a + b) == ValidOf(a) + ValidOf(b)
    ensures ErrorsOf(a + b) == ErrorsOf(a) + ErrorsOf(b)
    decreases |b|
  {
    ValidOfAppend(a, b);
    ErrorsOfAppend(a, b);
  }

  lemma {:induction false} ValidOfAppend(a: seq<FileInfo>, b: seq<FileInfo>)
    ensures ValidOf(a + b) == ValidOf(a) + ValidOf(b)
    decreases |b|
  {
    if b == [] {
      assert a + b == a;
    } else {
      var init, last := b[..|b| - 1], b[|b| - 1];
      var kept := if Rejection(last).None? then [last] else [];
      assert (a + b)[..|a + b| - 1] == a + init;
      assert (a + b)[|a + b| - 1] == last;
      assert ValidOf(a + b) == ValidOf(a + init) + kept;
      ValidOfAppend(a, init);
      AppendAssoc(ValidOf(a), ValidOf(init), kept);
    }
  }

  lemma {:induction false} ErrorsOfAppend(a: seq<FileInfo>, b: seq<FileInfo>)
    ensures ErrorsOf(a + b) == ErrorsOf(a) + ErrorsOf(b)
    decreases |b|
  {
    if b == [] {
      assert a + b == a;
    } else {
      var init, last := b[..|b| - 1], b[|b| - 1];
      var message := match Rejection(last) case Some(m) => [m] case None => [];
      assert (a + b)[..|a + b| - 1] == a + init;
      assert (a + b)[|a + b| - 1] == last;
      assert ErrorsOf(a + b) == ErrorsOf(a + init) + message;
      ErrorsOfAppend(a, init);
      AppendAssoc(ErrorsOf(a), ErrorsOf(init), message);
    }
  }

  /** Each file lands on exactly one side: accepted files are in
      `validFiles`, rejected ones contribute their message. */
  lemma {:induction false} FileLandsOnce(files: seq<FileInfo>, i: nat)
    requires i < |files|
    ensures Rejection(files[i]).None? ==> files[i] in ValidOf(files)
    ensures Rejection(files[i]).Some? ==> Rejection(files[i]).value in ErrorsOf(files)
  {
    var a, b := files[..i], files[i + 1..];
    assert files == a + [files[i]] + b;
    PartitionAppend(a + [files[i]], b);
    PartitionAppend(a, [files[i]]);
    assert [files[i]][..0] == [];
  }

  /** Every accepted file is within the size limit and of an allowed type. */
  lemma {:induction false} ValidFilesAreAllowed(files: seq<FileInfo>)
    ensures forall i :: 0 <= i < |ValidOf(files)| ==>
      ValidOf(files)[i].size <= MaxFileSize && ValidOf(files)[i].mimeType in AllowedTypes
      && ValidOf(files)[i] in files
    decreases |files|
  {
    if files != [] {
      ValidFilesAreAllowed(files[..|files| - 1]);
    }
  }

  lemma {:induction false} ErrorsEmptyIffAllAccepted(files: seq<FileInfo>)
    ensures ErrorsOf(files) == [] <==> forall i :: 0 <= i < |files| ==> Rejection(files[i]).None?
    decreases |files|
  {
    if files != [] {
      var init, last := files[..|files| - 1], files[|files| - 1];
      var tail := match Rejection(last) case Some(m) => [m] case None => [];
      assert ErrorsOf(files) == ErrorsOf(init) + tail;
      ErrorsEmptyIffAllAccepted(init);
      if ErrorsOf(files) == [] {
        assert ErrorsOf(init) == [] && tail == [];
        forall i | 0 <= i < |files| ensures Rejection(files[i]).None? {
          if i < |init| { assert files[i] == init[i]; }
        }
      }
    }
  }

  /** The error after validation is "" exactly when nothing was rejected,
      and otherwise it begins with the first message. */
  lemma ValidationErrorEmptyIff(files: seq<FileInfo>)
    ensures ValidationError(files) == "" <==> forall i :: 0 <= i < |files| ==> Rejection(files[i]).None?
    ensures ErrorsOf(files) != [] ==> ErrorsOf(files)[0] <= ValidationError(files)
  {
    ErrorsEmptyIffAllAccepted(files);
    var m := ErrorsOf(files);
    if m != [] {
      ErrorsAreNonEmpty(files);
      if |m| > 1 {
        assert Join(m, " ") == m[0] + " " + Join(m[1..], " ");
      }
    }
  }

  lemma {:induction false} ErrorsAreNonEmpty(files: seq<FileInfo>)
    ensures forall i :: 0 <= i < |ErrorsOf(files)| ==> ErrorsOf(files)[i] != []
    decreases |files|
  {
    if files != [] {
      ErrorsAreNonEmpty(files[..|files| - 1]);
    }
  }

  /** The dispatch picks one reader per allowed type, a different one for
      each type. */
  lemma ReaderForAllowed()
    ensures ReaderFor(PdfType) == Some(PdfReader)
    ensures ReaderFor(DocxType) == Some(DocxReader)
    ensures ReaderFor(TxtType) == Some(TxtReader)
    ensures ReaderFor(JsonType) == Some(JsonReader)
  {
    assert |PdfType| == 15 && |TxtType| == 10 && |DocxType| == 71 && |JsonType| == 16;
  }

  /** Parsed document i comes from accepted file i; without an extraction
      error every accepted file is parsed. */
  lemma {:induction false} ParsedDocsFollowFiles(files: seq<FileInfo>, extract: (Reader, FileInfo) -> Extracted)
    ensures var p := Parse(files, extract);
      && |p.docs| <= |files|
      && (p.failure.None? ==> |p.docs| == |files|)
      && (forall i :: 0 <= i < |p.docs| ==>
            p.docs[i].name == files[i].name && p.docs[i].mimeType == files[i].mimeType
            && Content(files[i], extract) == Text(p.docs[i].text))
    decreases |files|
  {
    if files != [] {
      var init := files[..|files| - 1];
      ParsedDocsFollowFiles(init, extract);
      var before := Parse(init, extract);
      forall i | 0 <= i < |before.docs| ensures files[i] == init[i] {}
    }
  }

  function ReportCount(results: seq<BackendResult>): nat {
    if results == [] then 0
    else ReportCount(results[..|results| - 1]) + (if Reports(results[|results| - 1]) then 1 else 0)
  }

  /** The labelling succeeds exactly when every reporting result has a
      parsed document at its index; then there is one message per
      reporting result. */
  lemma {:induction false} LabelErrorsFacts(docs: seq<ParsedDoc>, results: seq<BackendResult>)
    ensures LabelErrors(docs, results).Labelled? <==>
      forall i :: 0 <= i < |results| && Reports(results[i]) ==> i < |docs|
    ensures LabelErrors(docs, results).Labelled? ==> |LabelErrors(docs, results).errors| == ReportCount(results)
    decreases |results|
  {
    if results != [] {
      var init := results[..|results| - 1];
      LabelErrorsFacts(docs, init);
      if LabelErrors(docs, results).Labelled? {
        forall i | 0 <= i < |results| && Reports(results[i]) ensures i < |docs| {
          if i < |init| { assert results[i] == init[i]; }
        }
      } else if LabelErrors(docs, init).Labelled? {
        assert Reports(results[|init|]) && |init| >= |docs|;
      } else {
        var i :| 0 <= i < |init| && Reports(init[i]) && i >= |docs|;
        assert results[i] == init[i];
      }
    }
  }

  /** The message for reporting result i names parsed document i: it is
      the last message once result i has been seen. */
  lemma LabelNamesItsDocument(docs: seq<ParsedDoc>, results: seq<BackendResult>, i: nat)
    requires i < |results| && i < |docs| && Reports(results[i])
    requires LabelErrors(docs, results[..i]).Labelled?
    ensures LabelErrors(docs, results[..i + 1])
      == Labelled(LabelErrors(docs, results[..i]).errors + [docs[i].name + ": " + results[i].error])
  {
    var upTo := results[..i + 1];
    assert upTo[..i] == results[..i] && upTo[i] == results[i] && |upTo| == i + 1;
    assert LabelErrors(docs, upTo) == Labelled(LabelErrors(docs, results[..i]).errors + [Label(docs[i], results[i])]);
  }

  /** Results that report nothing label nothing. */
  lemma {:induction false} NoReportsLabelNothing(docs: seq<ParsedDoc>, results: seq<BackendResult>)
    requires forall i :: 0 <= i < |results| ==> !Reports(results[i])
    ensures LabelErrors(docs, results) == Labelled([])
    decreases |results|
  {
    if results != [] {
      var init := results[..|results| - 1];
      assert forall i :: 0 <= i < |init| ==> init[i] == results[i];
      NoReportsLabelNothing(docs, init);
    }
  }

  /** An upload whose results report nothing leaves the validation's error. */
  lemma CleanUploadKeepsError(docs: seq<ParsedDoc>, results: seq<BackendResult>, validationError: string)
    requires forall i :: 0 <= i < |results| ==> !Reports(results[i])
    ensures UploadError(docs, Uploaded(results), validationError) == validationError
  {
    NoReportsLabelNothing(docs, results);
  }

  /** With every file accepted the validation leaves no error. */
  lemma NoRejectionNoValidationError(files: seq<FileInfo>)
    requires forall i :: 0 <= i < |files| ==> Rejection(files[i]).None?
    ensures ValidationError(files) == ""
  {
    ValidationErrorEmptyIff(files);
  }

  /** A run with nothing rejected, every extraction succeeding and no
      result reporting an error leaves the error empty. */
  lemma CleanRunHasNoError(files: seq<FileInfo>, extract: (Reader, FileInfo) -> Extracted, results: seq<BackendResult>)
    requires forall i :: 0 <= i < |files| ==> Rejection(files[i]).None?
    requires Parse(ValidOf(files), extract).failure.None?
    requires forall i :: 0 <= i < |results| ==> !Reports(results[i])
    ensures FinalError(files, extract, Uploaded(results)) == ""
  {
    NoRejectionNoValidationError(files);
    CleanUploadKeepsError(Parse(ValidOf(files), extract).docs, results, "");
  }
}
