# DownloadFile page: a Dafny model

This project models the receiving page of PQDocSec,
`client/src/pages/DownloadFile.jsx`. The page polls a next-file endpoint
every two seconds. It keeps every file the endpoint announces in a list,
and lets the user save each one as a PDF. Saving an entry removes it from
the list.

The page has three state variables:

- `files`: the received entries;
- `loading`: whether the page is still waiting;
- `error`: the last error message, or `null`.

Five events change them:

- a poll tick that gets a 200 answer appends the entry and clears `loading`;
- a tick that gets 204 sets `loading`;
- a tick that gets any other status does nothing;
- a tick whose request or JSON body throws sets `"Connection error"`;
- a download decodes the entry's base64 payload with `atob` and copies it
  into a `Uint8Array`. It then saves a PDF and filters the list by the
  entry's id. If `atob` throws, it sets `"Failed to download file"`.

Files and modules:

- `wrappers.dfy` (`Wrappers`): `Option`. `None` stands for `null` and for
  an exception.
- `received_files.dfy` (`ReceivedFiles`): the list entry and the two pure
  list updaters. `Appended` is the spread-append of a 200 answer.
  `WithoutId` is the `filter` of a download. The lemmas cover counts,
  order and commutation.
- `base64.dfy` (`Base64`): `atob` as the forgiving-base64 decode of the
  WHATWG Infra standard, over the alphabet of section 4 of RFC 4648. Its
  partner `btoa` is the padded encoder of that section. `AtobBtoa` proves
  the round trip.
- `download_file.dfy` (`DownloadFilePage`): the page state as a value
  (`Page`) and the two transition functions `AfterPoll` and
  `AfterDownload`. The class `DownloadFile` has the three fields and one
  method per handler. Each method is proved to produce exactly the state
  the matching transition function gives. The file also holds the copy
  loop `ToBytes`, over an `array<bv8>`.
- `page_runs.dfy` (`DownloadFileRuns`): sequences of ticks and clicks
  folded over the page state, with lemmas about whole runs.

A receiver of this kind is meant to deduplicate by id, to deliver each
file exactly once and to drop answers that arrive late. The code does none
of this, and the model follows the code:

- **No deduplication.** A 200 answer is appended even when its id is
  already listed, so the same file can be listed twice
  (`DuplicateAnnouncement`). One successful download of that id then
  removes every copy (`DuplicateRemovedTogether`).
- **No "not found" error.** A download does not look its entry up. If the
  payload decodes, the file is saved again, and filtering an id that is no
  longer listed changes nothing (`DownloadTwice`).
- **Late answers are not discarded.** Each answer is folded in whenever it
  arrives.
- **`error` is never cleared.** Once set it stays set (`ErrorNeverCleared`).
- **204 sets `loading` to true.** This happens even after files have
  arrived.
- **A throwing JSON body counts as a poll failure.** A 200 answer whose
  body cannot be parsed sets `"Connection error"`.

## Model

| member | source | states |
|---|---|---|
| `DownloadFilePage.DownloadFile.constructor` | client/src/pages/DownloadFile.jsx:6-8 | the page starts with no files, `loading` true and no error |
| `DownloadFilePage.DownloadFile.PollTick` | client/src/pages/DownloadFile.jsx:24-47 | the interval callback's branches on status 200 / 204 / other / thrown update the fields to exactly `AfterPoll` of the old state |
| `DownloadFilePage.DownloadFile.Download` | client/src/pages/DownloadFile.jsx:51-80 | the download handler updates the fields to exactly `AfterDownload` of the old state and hands over exactly `Delivery(file)` (bytes, file name, PDF type), or nothing when `atob` throws |
| `DownloadFilePage.AfterPoll` | client/src/pages/DownloadFile.jsx:28-47 | a tick either keeps `files` or appends the announced entry, and appending needs a 200 with a parsed body; `error` is kept or becomes "Connection error"; `loading` changes only on a 200 or 204 answer |
| `DownloadFilePage.PollFound` | client/src/pages/DownloadFile.jsx:28-39 | a 200 answer appends one entry built from `id`, `filename`, `file_data`, `file_size` after all old entries; the length grows by one and the id's count by one, with no id check; `loading` becomes false and `error` is kept |
| `DownloadFilePage.PollNoContent` | client/src/pages/DownloadFile.jsx:40-43 | a 204 answer keeps `files` and `error` and sets `loading` |
| `DownloadFilePage.PollOtherStatus` | client/src/pages/DownloadFile.jsx:28-43 | any other status leaves the whole state unchanged |
| `DownloadFilePage.PollFailure` | client/src/pages/DownloadFile.jsx:44-47 | a throwing fetch or body sets "Connection error" and keeps `files` and `loading` |
| `DownloadFilePage.AfterDownload` | client/src/pages/DownloadFile.jsx:51-79 | a download never touches `loading` and never lengthens the list; if `atob` throws, the list is kept and the error is "Failed to download file"; if it decodes, no entry with the id remains and `error` is kept |
| `DownloadFilePage.DownloadSucceeds` | client/src/pages/DownloadFile.jsx:74-75 | a decoded download keeps exactly the entries with another id; the length drops by the number of entries with the id; the list is unchanged when none has the id; `loading` and `error` are kept |
| `DownloadFilePage.DownloadFails` | client/src/pages/DownloadFile.jsx:76-79 | a payload `atob` rejects leaves the list and `loading` and sets "Failed to download file" |
| `DownloadFilePage.Delivery` | client/src/pages/DownloadFile.jsx:54-66 | a file is saved exactly when `atob` accepts its payload; it is saved under the entry's file name with type application/pdf, and its bytes are exactly the character codes of `atob`'s result, as many as it has characters |
| `DownloadFilePage.CharCodes` | client/src/pages/DownloadFile.jsx:55-59 | the byte array has the binary string's length, and for a binary string each byte is that character's code |
| `DownloadFilePage.ToBytes` | client/src/pages/DownloadFile.jsx:55-59 | the loop fills an array of the decoded string's length; each byte is the character code stored as a Uint8Array stores it (the invariant holds for the prefix `0..i`) |
| `DownloadFilePage.DeliveryOfEncoded` | client/src/pages/DownloadFile.jsx:54-66 | a payload produced by `btoa` from a binary string saves exactly that string's bytes |
| `ReceivedFiles.Appended` | client/src/pages/DownloadFile.jsx:32-37 | the spread-append adds the entry last and keeps all earlier entries; the length grows by one; the entry's id gains one occurrence and every other id keeps its count |
| `ReceivedFiles.CountId` | client/src/pages/DownloadFile.jsx:75 | the number of entries with an id is at most the length, and it is zero exactly when no entry has the id |
| `ReceivedFiles.CountIdConcat` | client/src/pages/DownloadFile.jsx:32 | per-id counts add up over concatenation |
| `ReceivedFiles.WithoutId` | client/src/pages/DownloadFile.jsx:75 | `filter(f => f.id !== id)` keeps exactly the entries whose id differs, and never lengthens the list |
| `ReceivedFiles.WithoutIdRemovesAll` | client/src/pages/DownloadFile.jsx:75 | no entry with the id survives the filter, and the filter is a no-op when no entry had the id |
| `ReceivedFiles.WithoutIdKeepsAll` | client/src/pages/DownloadFile.jsx:75 | when no entry has the id, the filter returns the list itself |
| `ReceivedFiles.WithoutIdConcat` | client/src/pages/DownloadFile.jsx:75 | the filter distributes over concatenation, so the kept entries keep their relative order |
| `ReceivedFiles.WithoutIdCounts` | client/src/pages/DownloadFile.jsx:75 | the filter shortens the list by exactly the count of the id; every other id keeps its count |
| `ReceivedFiles.WithoutIdAppended` | client/src/pages/DownloadFile.jsx:75 | filtering after an append equals appending after filtering when the ids differ; when they are equal, the new entry is removed too |
| `Base64.Atob` | client/src/pages/DownloadFile.jsx:54 | `atob` either throws or returns a binary string (every code below 256) of at most three quarters of the input's length |
| `Base64.StripWhitespace` | client/src/pages/DownloadFile.jsx:54 | `atob`'s first step keeps exactly the non-whitespace characters and never lengthens its input (order and multiplicity: `StripWhitespaceConcat`, `StripWhitespaceChar`) |
| `Base64.StripWhitespaceConcat` | client/src/pages/DownloadFile.jsx:54 | stripping distributes over concatenation, so the kept characters stay in their order |
| `Base64.StripWhitespaceChar` | client/src/pages/DownloadFile.jsx:54 | a single character is dropped exactly when it is ASCII whitespace |
| `Base64.DropPadding` | client/src/pages/DownloadFile.jsx:54 | removing padding drops at most two trailing characters |
| `Base64.DecodeSextets` | client/src/pages/DownloadFile.jsx:54 | decoding yields a binary string of three bytes per four characters (`|t| * 3 / 4`) |
| `Base64.EncodeSextets` | client/src/pages/DownloadFile.jsx:54 | the unpadded encoding uses only alphabet characters, and its length modulo 4 follows from the input's length modulo 3 |
| `Base64.Btoa` | client/src/pages/DownloadFile.jsx:54 | the padded encoding has a length divisible by four |
| `Base64.ChunkRoundTrip` | client/src/pages/DownloadFile.jsx:54 | decoding the two to four characters of one encoded chunk gives the chunk back |
| `Base64.DecodeEncodeSextets` | client/src/pages/DownloadFile.jsx:54 | decoding the unpadded encoding gives back every binary string |
| `Base64.BtoaStripped` | client/src/pages/DownloadFile.jsx:54 | the output of `btoa` has no whitespace, so `atob`'s first step leaves it whole |
| `Base64.BtoaUnpadded` | client/src/pages/DownloadFile.jsx:54 | removing the padding from the output of `btoa` leaves exactly the unpadded encoding |
| `Base64.AtobBtoa` | client/src/pages/DownloadFile.jsx:54 | `atob(btoa(s)) == s` for every binary string `s` |
| `DownloadFileRuns.ErrorNeverCleared` | client/src/pages/DownloadFile.jsx:44-47 | over any run, a set `error` stays set, and `error` only ever holds its start value or one of the two handler messages |
| `DownloadFileRuns.FilesProvenance` | client/src/pages/DownloadFile.jsx:32-37 | every listed entry was listed at the start or was announced by some 200 tick of the run |
| `DownloadFileRuns.IdleStability` | client/src/pages/DownloadFile.jsx:40-43 | any number of non-200 answers keep `files` and `error`; a non-empty run of 204 answers only sets `loading` |
| `DownloadFileRuns.Resilience` | client/src/pages/DownloadFile.jsx:24-47 | after any run, including failed ticks, a 200 tick still appends its entry |
| `DownloadFileRuns.FoundAndDownloadCommute` | client/src/pages/DownloadFile.jsx:32-75 | a 200 tick and a download give the same page in either order when the download's id differs or its payload does not decode |
| `DownloadFileRuns.DuplicateAnnouncement` | client/src/pages/DownloadFile.jsx:32-37 | the same file announced twice is listed twice |
| `DownloadFileRuns.DuplicateRemovedTogether` | client/src/pages/DownloadFile.jsx:75 | one successful download of a twice-listed file removes both entries |
| `DownloadFileRuns.DownloadTwice` | client/src/pages/DownloadFile.jsx:51-79 | downloading the same entry a second time leaves the page as the first download left it |
| `DownloadFileRuns.ReceiveThenDownload` | client/src/pages/DownloadFile.jsx:24-75 | ticks 204, 200 {a, x.pdf, "QQ=="}, 204 leave that one entry listed with `loading` set; downloading it saves byte 0x41 and empties the list |
| `DownloadFileRuns.AtobOfQQ` | client/src/pages/DownloadFile.jsx:54 | the payload "QQ==" decodes to the one character 'A' (0x41) |
| `DownloadFileRuns.Display` | client/src/pages/DownloadFile.jsx:102-119 | on mount only the waiting panel shows; after a 200 tick the list shows and the waiting panel does not |

## Left out

- The request to `http://localhost:5000/next-file` and `response.json()`
  are network I/O. Each tick receives its result as a value: a status with
  a parsed body or `None`, or a rejected fetch.
- `setInterval`, `clearInterval` and the mount/unmount effect are timers.
  The model takes ticks one at a time, in arrival order. Callbacks that
  overlap while requests are pending are not modelled. Neither are ticks
  after unmount.
- `Blob`, `createObjectURL`, the anchor and its `click`, and
  `revokeObjectURL` are browser calls. They are assumed to succeed, so a
  download fails only when `atob` throws. What they receive is modelled as
  the `SavedFile` value (bytes, file name, content type).
- `atob`: the model follows the forgiving-base64 algorithm. It assumes the
  payload is already a string, with no conversion of other JSON values. It
  also works on Unicode scalar values rather than UTF-16 code units. This
  makes no difference for payloads made of ASCII characters.
- `goBack`/`navigate` and the JSX are UI. Of the display, only the
  conditions of the waiting panel, the file list and the error line are
  kept, as predicates.
- The megabyte size display uses floating-point formatting and is left
  out. `fileSize` is carried but never checked against the payload.
- The `console.error` calls are logging only.
