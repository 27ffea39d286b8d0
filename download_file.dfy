/**
 * The DownloadFile page: three state variables (`files`, `loading`,
 * `error`), a poll tick that folds one answer of the next-file endpoint into
 * them, and a download that turns one received entry into a saved PDF and
 * drops every entry with its id.
 *
 * The transitions are stated once as functions on a `Page` value
 * (`AfterPoll`, `AfterDownload`); the class `DownloadFile` performs them
 * field by field and is proved to agree with them; sequences of events are
 * folded by `Run`, and the lemmas at the end are about those folds.
 */
module DownloadFilePage {
  import opened Wrappers
  import opened ReceivedFiles
  import opened Base64

  const ConnectionError: string := "Connection error"
  const DownloadFailed: string := "Failed to download file"
  const PdfType: string := "application/pdf"

  /** The JSON body of a 200 answer, with the endpoint's field names. */
  datatype NextFileBody = NextFileBody(id: string, filename: string, file_data: string, file_size: int)

  /**
   * What one poll tick observes: an answer with its status and, for the body,
   * `None` when reading it as JSON throws; or a `fetch` that throws.
   */
  datatype PollOutcome =
    | Response(status: int, body: Option<NextFileBody>)
    | FetchRejected

  /** The page's state variables as one value. */
  datatype Page = Page(files: seq<IncomingFile>, loading: bool, error: Option<string>)

  /** The state on mount: nothing received, waiting, no error. */
  const Initial: Page := Page([], true, None)

  /** The list entry built from a 200 body (renaming `file_data` and `file_size`). */
  function ToIncoming(b: NextFileBody): IncomingFile
  {
    IncomingFile(b.id, b.filename, b.file_data, b.file_size)
  }

  /** The outcome carries a file: status 200 with a body that parsed. */
  predicate IsFound(o: PollOutcome)
  {
    o.Response? && o.status == 200 && o.body.Some?
  }

  /**
   * The effect of one poll tick. A 200 answer appends its file and clears
   * `loading`; 204 sets `loading`; any other status changes nothing; a
   * throwing `fetch` or body sets the connection error.
   */
  function AfterPoll(p: Page, o: PollOutcome): (r: Page)
    ensures r.files == p.files || (IsFound(o) && r.files == Appended(p.files, ToIncoming(o.body.value)))
    ensures r.error == p.error || r.error == Some(ConnectionError)
    ensures r.loading != p.loading ==> o.Response? && (o.status == 200 || o.status == 204)
  {
    match o
    case FetchRejected => p.(error := Some(ConnectionError))
    case Response(status, body) =>
      if status == 200 then
        match body
        case None => p.(error := Some(ConnectionError))
        case Some(b) => p.(files := Appended(p.files, ToIncoming(b)), loading := false)
      else if status == 204 then p.(loading := true)
      else p
  }

  /**
   * A 200 answer with a body appends exactly one entry, built from the body,
   * after all the old ones; it checks no id, so an id already in the list
   * gains a second entry. `loading` becomes false and `error` is kept.
   */
  lemma PollFound(p: Page, b: NextFileBody)
    ensures var r := AfterPoll(p, Response(200, Some(b)));
      && |r.files| == |p.files| + 1
      && r.files[..|p.files|] == p.files
      && r.files[|p.files|] == IncomingFile(b.id, b.filename, b.file_data, b.file_size)
      && CountId(r.files, b.id) == CountId(p.files, b.id) + 1
      && !r.loading
      && r.error == p.error
  {
  }

  /** A 204 answer keeps `files` and `error` and sets `loading`. */
  lemma PollNoContent(p: Page, body: Option<NextFileBody>)
    ensures var r := AfterPoll(p, Response(204, body));
      r.files == p.files && r.loading && r.error == p.error
  {
  }

  /** An answer whose status is neither 200 nor 204 changes nothing. */
  lemma PollOtherStatus(p: Page, status: int, body: Option<NextFileBody>)
    requires status != 200 && status != 204
    ensures AfterPoll(p, Response(status, body)) == p
  {
  }

  /**
   * A tick whose request or body throws sets the connection error and keeps
   * `files` and `loading`.
   */
  lemma PollFailure(p: Page, o: PollOutcome)
    requires o.FetchRejected? || (o.Response? && o.status == 200 && o.body.None?)
    ensures var r := AfterPoll(p, o);
      r.files == p.files && r.loading == p.loading && r.error == Some(ConnectionError)
  {
  }

  /** What the page hands to the browser's save flow: the bytes, the file name and the type. */
  datatype SavedFile = SavedFile(bytes: seq<bv8>, filename: string, contentType: string)

  /** A store into a `Uint8Array` keeps the code modulo 256. */
  function ToUint8(c: char): bv8
  {
    ((c as int) % 256) as bv8
  }

  /** The bytes a binary string stands for. */
  function CharCodes(s: string): (r: seq<bv8>)
    ensures |r| == |s|
    ensures IsBinary(s) ==> forall j :: 0 <= j < |s| ==> r[j] as int == s[j] as int
  {
    seq(|s|, j requires 0 <= j < |s| => ToUint8(s[j]))
  }

  /** The file a download saves, or `None` when `atob` throws on its payload. */
  function Delivery(file: IncomingFile): (d: Option<SavedFile>)
    ensures d.Some? <==> Atob(file.fileData).Some?
    ensures d.Some? ==> d.value.filename == file.filename && d.value.contentType == PdfType
    ensures d.Some? ==> var binary := Atob(file.fileData).value;
      && |d.value.bytes| == |binary|
      && forall j :: 0 <= j < |binary| ==> d.value.bytes[j] as int == binary[j] as int
  {
    match Atob(file.fileData)
    case None => None
    case Some(binary) => Some(SavedFile(CharCodes(binary), file.filename, PdfType))
  }

  /**
   * The effect of a download: when the payload decodes, every entry with
   * the file's id leaves the list; otherwise the download error is set.
   */
  function AfterDownload(p: Page, file: IncomingFile): (r: Page)
    ensures r.loading == p.loading && |r.files| <= |p.files|
    ensures Atob(file.fileData).None? ==> r.files == p.files && r.error == Some(DownloadFailed)
    ensures Atob(file.fileData).Some? ==> !HasId(r.files, file.id) && r.error == p.error
  {
    WithoutIdRemovesAll(p.files, file.id);
    if Atob(file.fileData).None? then p.(error := Some(DownloadFailed))
    else p.(files := WithoutId(p.files, file.id))
  }

  /**
   * A download whose payload decodes removes every entry with the file's id,
   * keeps the others in their order, never lengthens the list, is a no-op on
   * the list when no entry has the id, and leaves `loading` and `error`.
   */
  lemma DownloadSucceeds(p: Page, file: IncomingFile)
    requires Atob(file.fileData).Some?
    ensures var r := AfterDownload(p, file);
      && r.files == WithoutId(p.files, file.id)
      && (forall g :: g in r.files <==> g in p.files && g.id != file.id)
      && |r.files| == |p.files| - CountId(p.files, file.id)
      && (!HasId(p.files, file.id) ==> r.files == p.files)
      && r.loading == p.loading && r.error == p.error
  {
    WithoutIdCounts(p.files, file.id);
    WithoutIdRemovesAll(p.files, file.id);
  }

  /** A download whose payload does not decode keeps the list and sets the download error. */
  lemma DownloadFails(p: Page, file: IncomingFile)
    requires Atob(file.fileData).None?
    ensures AfterDownload(p, file) == p.(error := Some(DownloadFailed))
  {
  }

  /**
   * A payload produced by `btoa` from a binary string saves exactly the bytes
   * of that string, under the entry's file name, as a PDF.
   */
  lemma DeliveryOfEncoded(file: IncomingFile, s: string)
    requires IsBinary(s) && file.fileData == Btoa(s)
    ensures Delivery(file) == Some(SavedFile(CharCodes(s), file.filename, PdfType))
    ensures forall j :: 0 <= j < |s| ==> Delivery(file).value.bytes[j] as int == s[j] as int
  {
    AtobBtoa(s);
  }

  /**
   * The copy loop of a download: each character code of the binary string
   * goes into a fresh byte array of the same length.
   */
  method ToBytes(binaryString: string) returns (bytes: array<bv8>)
    ensures bytes.Length == |binaryString|
    ensures forall j :: 0 <= j < |binaryString| ==> bytes[j] == ToUint8(binaryString[j])
  {
    bytes := new bv8[|binaryString|];
    for i := 0 to |binaryString|
      invariant forall j :: 0 <= j < i ==> bytes[j] == ToUint8(binaryString[j])
    {
      bytes[i] := ToUint8(binaryString[i]);
    }
  }

  /** The page component, its state variables updated in place by its handlers. */
  class DownloadFile {
    var files: seq<IncomingFile>
    var loading: bool
    var error: Option<string>

    function State(): Page
      reads this
    {
      Page(files, loading, error)
    }

    constructor ()
      ensures files == [] && loading && error == None
      ensures State() == Initial
    {
      files := [];
      loading := true;
      error := None;
    }

    /** One run of the interval callback, given what its request produced. */
    method PollTick(outcome: PollOutcome)
      modifies this
      ensures State() == AfterPoll(old(State()), outcome)
    {
      match outcome {
        case FetchRejected =>
          error := Some(ConnectionError);
        case Response(status, body) =>
          if status == 200 {
            if body.None? {
              error := Some(ConnectionError);
            } else {
              files := Appended(files, ToIncoming(body.value));
              loading := false;
            }
          } else if status == 204 {
            loading := true;
          }
      }
    }

    /** The download handler: decode, copy into bytes, save, then drop the entry by id. */
    method Download(file: IncomingFile) returns (saved: Option<SavedFile>)
      modifies this
      ensures State() == AfterDownload(old(State()), file)
      ensures saved == Delivery(file)
    {
      var binaryString := Atob(file.fileData);
      if binaryString.None? {
        error := Some(DownloadFailed);
        return None;
      }
      var bytes := ToBytes(binaryString.value);
      assert bytes[..] == CharCodes(binaryString.value);
      saved := Some(SavedFile(bytes[..], file.filename, PdfType));
      files := WithoutId(files, file.id);
    }
  }
}
