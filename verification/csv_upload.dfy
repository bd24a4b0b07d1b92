/** The recipient import of src/components/CSVUploadModal.tsx: parsed rows
    are normalised to `{name, email}` records, rows without an email are
    dropped, the first five are previewed, and the whole list is handed to
    the composer on submit. */
module CsvUpload {
  import opened Wrappers
  import opened Strings
  import opened Types
  import opened CsvParser

  const InvalidFileMessage := "Please upload a valid CSV file"
  const NoFileMessage := "Please select a file first"
  const EmptyDataMessage := "CSV appears to be empty"
  const ReadFailureMessage := "Failed to read file"
  const PreviewSize := 5

  /* ---------------------------------------------------------------------- */
  /* Row normalisation                                                      */
  /* ---------------------------------------------------------------------- */

  /** `keys.find(key => key.toLowerCase() === target)`. */
  function FindKey(keys: seq<string>, target: string): (r: Option<string>)
    ensures r.Some? ==> r.value in keys && Lower(r.value) == target
    ensures r.None? <==> forall k :: k in keys ==> Lower(k) != target
    // the key found is the first one that matches
    ensures r.Some? ==> FirstMatch(keys, target, r.value)
  {
    if keys == [] then None
    else if Lower(keys[0]) == target then Some(keys[0])
    else
      var r := FindKey(keys[1..], target);
      if r.Some? then FirstMatchShift(keys, target, r.value); r else r
  }

  /** `v` is the value of the first key of `keys` whose lower case is `target`. */
  ghost predicate FirstMatch(keys: seq<string>, target: string, v: string) {
    exists i :: 0 <= i < |keys| && keys[i] == v && forall k :: 0 <= k < i ==> Lower(keys[k]) != target
  }

  /** A first match in the tail is a first match of the whole list when the
      head does not match. */
  lemma FirstMatchShift(keys: seq<string>, target: string, v: string)
    requires keys != [] && Lower(keys[0]) != target
    requires FirstMatch(keys[1..], target, v)
    ensures FirstMatch(keys, target, v)
  {
    var i :| 0 <= i < |keys[1..]| && keys[1..][i] == v && forall k :: 0 <= k < i ==> Lower(keys[1..][k]) != target;
    assert keys[i + 1] == v;
    forall k | 0 <= k < i + 1
      ensures Lower(keys[k]) != target
    {
      if k > 0 {
        assert keys[k] == keys[1..][k - 1];
      }
    }
  }

  /** The per-row map of CSVUploadModal.tsx lines 52-63 (and 99-110): the
      values under the first key spelled `name` and the first key spelled
      `email` in any letter case, or two empty strings when either is missing. */
  function NormaliseRow(row: Row): (r: Recipient)
    ensures var nk := FindKey(Keys(row), "name"); var ek := FindKey(Keys(row), "email");
      && (nk.None? || ek.None? ==> r == Recipient("", ""))
      && (nk.Some? && ek.Some? ==> Lookup(row, nk.value) == Some(r.name) && Lookup(row, ek.value) == Some(r.email))
  {
    var nameKey := FindKey(Keys(row), "name");
    var emailKey := FindKey(Keys(row), "email");
    if nameKey.None? || emailKey.None? then Recipient("", "")
    else Recipient(Lookup(row, nameKey.value).GetOr(""), Lookup(row, emailKey.value).GetOr(""))
  }

  /** The recipient as a list of one, or nothing when its email is empty. */
  function Kept(r: Recipient): seq<Recipient> {
    if r.email != "" then [r] else []
  }

  /** The map-then-filter of CSVUploadModal.tsx lines 52-65 and 99-112,
      written once: normalise every row, keep those with a non-empty email. */
  function Normalise(data: seq<Row>): (rs: seq<Recipient>)
    ensures forall i :: 0 <= i < |rs| ==> rs[i].email != ""
    ensures |rs| <= |data|
  {
    if data == [] then []
    else
      Kept(NormaliseRow(data[0])) + Normalise(data[1..])
  }

  /** Normalising concatenated row lists concatenates the results: the filter
      keeps the relative order of the rows it keeps. */
  lemma {:induction false} NormaliseAppend(a: seq<Row>, b: seq<Row>)
    ensures Normalise(a + b) == Normalise(a) + Normalise(b)
  {
    if a != [] {
      assert (a + b)[0] == a[0];
      assert (a + b)[1..] == a[1..] + b;
      NormaliseCons(a);
      NormaliseCons(a + b);
      NormaliseAppend(a[1..], b);
    } else {
      assert a + b == b;
    }
  }

  /** One step of the map-then-filter. */
  lemma NormaliseCons(data: seq<Row>)
    requires data != []
    ensures Normalise(data) == Kept(NormaliseRow(data[0])) + Normalise(data[1..])
  {
  }


  /** A single row is kept, normalised, exactly when its email is non-empty.
      No address-shape check is made. */
  lemma NormaliseOne(row: Row)
    ensures NormaliseRow(row).email != "" ==> Normalise([row]) == [NormaliseRow(row)]
    ensures NormaliseRow(row).email == "" ==> Normalise([row]) == []
  {
  }

  /** Rows none of which has both a `name` and an `email` key import nothing. */
  lemma {:induction false} NormaliseWithoutKeys(data: seq<Row>)
    requires forall i :: 0 <= i < |data| ==>
      FindKey(Keys(data[i]), "name").None? || FindKey(Keys(data[i]), "email").None?
    ensures Normalise(data) == []
  {
    if data != [] {
      NormaliseWithoutKeys(data[1..]);
    }
  }

  /** Appending a key affects `FindKey` only when nothing matched before. */
  lemma {:induction false} FindKeyAppend(keys: seq<string>, x: string, target: string)
    ensures FindKey(keys + [x], target)
      == if FindKey(keys, target).Some? then FindKey(keys, target)
         else if Lower(x) == target then Some(x) else None
  {
    if keys == [] {
      assert keys + [x] == [x];
    } else {
      assert (keys + [x])[1..] == keys[1..] + [x];
      FindKeyAppend(keys[1..], x, target);
    }
  }

  /** Dropping repeated keys does not change which key is found first. */
  lemma {:induction false} FindKeyFirstOccurrences(s: seq<string>, target: string)
    ensures FindKey(FirstOccurrences(s), target) == FindKey(s, target)
    decreases |s|
  {
    if s != [] {
      var n := |s| - 1;
      assert s == s[..n] + [s[n]];
      FindKeyFirstOccurrences(s[..n], target);
      FindKeyAppend(s[..n], s[n], target);
      FindKeyAppend(FirstOccurrences(s[..n]), s[n], target);
    }
  }

  /** The index of the last column carrying header `k`. */
  function LastIndexOf(headers: seq<string>, k: string): (j: nat)
    requires k in headers
    ensures IsLastOccurrence(headers, j) && headers[j] == k
  {
    var n := |headers| - 1;
    if headers[n] == k then n
    else
      assert k in headers[..n] by {
        var i :| 0 <= i < |headers| && headers[i] == k;
        assert i < n && headers[..n][i] == k;
      }
      LastIndexOf(headers[..n], k)
  }

  /** The recipient a parsed line becomes, stated over the header cells:
      name and email are taken from the first header spelled `name` and the
      first spelled `email` (any letter case), each read from the last
      column carrying that exact header; without both headers the line
      becomes two empty strings. */
  lemma NormaliseBuiltRow(headers: seq<string>, values: seq<string>)
    ensures var nk := FindKey(headers, "name");
      var ek := FindKey(headers, "email");
      NormaliseRow(BuildRow(headers, values)) ==
        if nk.Some? && ek.Some? then
          Recipient(Cell(values, LastIndexOf(headers, nk.value)), Cell(values, LastIndexOf(headers, ek.value)))
        else Recipient("", "")
  {
    var row := BuildRow(headers, values);
    FindKeyFirstOccurrences(headers, "name");
    FindKeyFirstOccurrences(headers, "email");
    var nk := FindKey(headers, "name");
    var ek := FindKey(headers, "email");
    if nk.Some? && ek.Some? {
      BuildRowValues(headers, values, LastIndexOf(headers, nk.value));
      BuildRowValues(headers, values, LastIndexOf(headers, ek.value));
    }
  }

  /** A file whose header has an accepted synonym but no header spelled
      exactly `name` (or `email`) in some letter case passes the parser and
      imports no recipient at all. */
  lemma SynonymHeadersImportNothing(text: string)
    requires NonBlank(SplitLines(text)) != []
    requires var headers := HeaderCells(NonBlank(SplitLines(text))[0]);
      && HasRequiredColumns(headers)
      && (FindKey(headers, "name").None? || FindKey(headers, "email").None?)
    ensures ParseCSV(text).errors == []
    ensures Normalise(ParseCSV(text).data) == []
  {
    var headers := HeaderCells(NonBlank(SplitLines(text))[0]);
    var data := ParseCSV(text).data;
    ParsedRowKeys(text);
    forall i | 0 <= i < |data|
      ensures FindKey(Keys(data[i]), "name").None? || FindKey(Keys(data[i]), "email").None?
    {
      assert data[i] in data;
      if FindKey(headers, "name").None? {
        assert FindKey(Keys(data[i]), "name").None?;
      } else {
        assert FindKey(Keys(data[i]), "email").None?;
      }
    }
    NormaliseWithoutKeys(data);
  }

  /* ---------------------------------------------------------------------- */
  /* The modal's handlers                                                   */
  /* ---------------------------------------------------------------------- */

  /** A chosen file: its name and MIME type. Reading it is a separate step
      that each handler performs on its own (`readFileAsText`), so its text is
      passed to the handlers as a read result, `None` when the reader fails. */
  datatype CsvFile = CsvFile(name: string, mimeType: string)

  /** The modal's state: the error shown, the preview rows, the chosen file. */
  datatype ModalState = ModalState(error: Option<string>, preview: seq<Recipient>, file: Option<CsvFile>)

  /** The file-type gate of CSVUploadModal.tsx lines 27-30. */
  predicate IsAcceptedFile(f: CsvFile) {
    f.mimeType == "text/csv" || EndsWith(f.name, ".csv")
  }

  /** Either the MIME type or the extension admits a file; the extension
      test is case-sensitive, so an upper-case `.CSV` needs the MIME type. */
  lemma AcceptedFileExamples()
    ensures IsAcceptedFile(CsvFile("list.csv", ""))
    ensures IsAcceptedFile(CsvFile("list", "text/csv"))
    ensures !IsAcceptedFile(CsvFile("list.CSV", "application/vnd.ms-excel"))
    ensures !IsAcceptedFile(CsvFile("list.csv.txt", "text/plain"))
  {
    assert "list.csv"[4..] == ".csv";
  }

  /** `formattedData.slice(0, 5)`. */
  function Preview(rs: seq<Recipient>): (p: seq<Recipient>)
    ensures |p| == if |rs| < PreviewSize then |rs| else PreviewSize
    ensures p == rs[..|p|]
  {
    if |rs| <= PreviewSize then rs else rs[..PreviewSize]
  }

  /** `handleFileChange`: clears the error and preview, checks the type of
      the first chosen file, remembers it, parses it and shows the preview.
      `read` is what reading that file yields (line 36); it is only looked at
      when the file passes the type gate. */
  function HandleFileChange(st: ModalState, files: seq<CsvFile>, read: Option<string>): (r: ModalState)
    ensures r.file == if files != [] && IsAcceptedFile(files[0]) then Some(files[0]) else st.file
    ensures files == [] ==> r.error.None? && r.preview == []
    ensures files != [] && !IsAcceptedFile(files[0]) ==>
      r.error == Some(InvalidFileMessage) && r.preview == []
    ensures r.preview != [] ==> r.error.None?
    ensures |r.preview| <= PreviewSize
    ensures files != [] && IsAcceptedFile(files[0]) ==>
      match read
      case None =>
        r.error == Some("Error reading file: " + ReadFailureMessage) && r.preview == []
      case Some(text) =>
        var res := ParseCSV(text);
        && (res.errors != [] ==> r.error == Some("Error parsing CSV: " + res.errors[0]) && r.preview == [])
        && (res.errors == [] && res.data == [] ==> r.error == Some(EmptyDataMessage) && r.preview == [])
        && (res.errors == [] && res.data != [] ==> r.error.None? && r.preview == Preview(Normalise(res.data)))
  {
    var cleared := st.(error := None, preview := []);
    if files == [] then cleared
    else
      var f := files[0];
      if !IsAcceptedFile(f) then cleared.(error := Some(InvalidFileMessage))
      else
        var chosen := cleared.(file := Some(f));
        match read
        case None => chosen.(error := Some("Error reading file: " + ReadFailureMessage))
        case Some(text) =>
          var res := ParseCSV(text);
          if |res.errors| > 0 then chosen.(error := Some("Error parsing CSV: " + res.errors[0]))
          else if |res.data| == 0 then chosen.(error := Some(EmptyDataMessage))
          else chosen.(preview := Preview(Normalise(res.data)))
  }

  /** What `handleSubmit` does: show an error, or pass the recipients to `onUpload`. */
  datatype SubmitOutcome = ShowError(message: string) | Upload(recipients: seq<Recipient>)

  /** `handleSubmit`: reads the chosen file again (`read`, line 90) and
      re-parses it; any parse error stops it before `onUpload` and reports
      the first error's message. */
  function HandleSubmit(file: Option<CsvFile>, read: Option<string>): (r: SubmitOutcome)
    ensures file.None? ==> r == ShowError(NoFileMessage)
    ensures file.Some? && read.Some? && ParseCSV(read.value).errors != [] ==>
      r == ShowError("Error parsing CSV: " + ParseCSV(read.value).errors[0])
    ensures file.Some? && read.None? ==>
      r == ShowError("Error processing file: " + ReadFailureMessage)
    ensures file.Some? && read.Some? && ParseCSV(read.value).errors == [] ==>
      r == Upload(Normalise(ParseCSV(read.value).data))
    ensures r.Upload? ==>
      && file.Some? && read.Some?
      && ParseCSV(read.value).errors == []
      && (forall i :: 0 <= i < |r.recipients| ==> r.recipients[i].email != "")
  {
    match file
    case None => ShowError(NoFileMessage)
    case Some(_) =>
      match read
      case None => ShowError("Error processing file: " + ReadFailureMessage)
      case Some(text) =>
        var res := ParseCSV(text);
        if |res.errors| > 0 then ShowError("Error parsing CSV: " + res.errors[0])
        else Upload(Normalise(res.data))
  }

  /** When the second read returns the text the first one did, the preview
      shown after choosing a file lists the first rows of what submitting
      that file imports. */
  lemma PreviewIsPrefixOfUpload(st: ModalState, files: seq<CsvFile>, read: Option<string>)
    requires HandleFileChange(st, files, read).preview != []
    ensures var r := HandleFileChange(st, files, read);
      && HandleSubmit(r.file, read).Upload?
      && r.preview == HandleSubmit(r.file, read).recipients[..|r.preview|]
  {
  }

  /** The two reads are independent: a file whose preview was shown still
      fails on submit when reading it the second time fails. */
  lemma PreviewThenRereadFailure(st: ModalState, files: seq<CsvFile>, text: string)
    requires HandleFileChange(st, files, Some(text)).preview != []
    ensures var r := HandleFileChange(st, files, Some(text));
      HandleSubmit(r.file, None) == ShowError("Error processing file: " + ReadFailureMessage)
  {
  }

  /** When both reads return the same text, a file that fails to parse when
      chosen fails the same way on submit: both handlers report the parser's
      first message with the same prefix. */
  lemma ParseErrorShownByBoth(st: ModalState, files: seq<CsvFile>, text: string)
    requires files != [] && IsAcceptedFile(files[0])
    requires ParseCSV(text).errors != []
    ensures var r := HandleFileChange(st, files, Some(text));
      r.error.Some? && HandleSubmit(r.file, Some(text)) == ShowError(r.error.value)
  {
  }

  /** When the chosen file has no data rows, no preview is shown, yet
      submitting it (read again to the same text) still calls `onUpload`,
      with no recipients. */
  lemma EmptyDataStillUploads(st: ModalState, files: seq<CsvFile>, text: string)
    requires files != [] && IsAcceptedFile(files[0])
    requires ParseCSV(text) == ParseResult([], [])
    ensures var r := HandleFileChange(st, files, Some(text));
      r.error == Some(EmptyDataMessage) && HandleSubmit(r.file, Some(text)) == Upload([])
  {
  }

  /** Choosing the same files again, with the same read result, changes nothing. */
  lemma HandleFileChangeIdempotent(st: ModalState, files: seq<CsvFile>, read: Option<string>)
    ensures HandleFileChange(HandleFileChange(st, files, read), files, read) == HandleFileChange(st, files, read)
  {
  }
}
