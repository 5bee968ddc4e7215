# ods-api: a Dafny model of `ODS.download`

`ODS.download(symbol, language, save_path=None)` fetches a document from the
UN Official Document System (ODS). It works in these steps:

1. It escapes the spaces in the symbol as `%20`.
2. It warms up the class-level HTTP session with a GET to `cookie_url`, but
   only while the session has no `sessionID` cookie.
3. It issues one GET to `base_url?Open&DS=<symbol>&Lang=<language>`.
4. On status 200, it writes the body in 8192-byte chunks to a file object.
   That is a file opened `wb+` at `save_path`, or an anonymous temporary
   file when `save_path` is missing or empty.
5. It rewinds the file, reads back up to 8192 bytes and decodes them as
   ISO-8859-1. It fails unless `%PDF` occurs in that text.
6. Otherwise it rewinds the file again and returns it.

Any status other than 200 fails with `Request failed to <url>`.

The model has five modules:

- `Bytes` (bytes.dfy): bytes, Latin-1 decoding and encoding, and Python's
  `in` on strings (`Occurs`).
- `Transport` (transport.dfy): the abstract HTTP reply and `iter_content`
  slicing.
- `FileIo` (file_object.dfy): the file object, a class holding its bytes and
  a position, with `Write`, `Read` and `Seek`.
- `OdsApi` (ods.dfy): escaping, the URL, the PDF check, and the `Ods` class.
  The class's cookie-jar field stands for the shared `session`, and its
  `Download` method buffers the body in a loop.
- `Wrappers` (wrappers.dfy): `Option` and `Result`.

Inputs from outside are parameters of `Download`:

- `warmUpReply`: the transport's answer to the warm-up GET.
- `reply`: its answer to the document GET.

The session's cookie jar is the set of cookie names it holds. Every reply
adds the cookies it sets. The ghost history `sent` records each GET issued,
and `files` records each file opened.

`download` issues one direct GET (`ods_api/__init__.py:36`). It has no
redirect-following or marker-parsing logic of its own, and it raises a plain
`Exception`. `FileNotFound` is declared (`ods_api/__init__.py:4-5`), but
`download` never raises it, so it is not modelled.

## Model

| member | source | states |
|---|---|---|
| `OdsApi.EscapeSymbol` | ods_api/__init__.py:30 | the escaped symbol contains no space, and it is two characters longer per space in the input |
| `OdsApi.EscapeAppend` | ods_api/__init__.py:30 | escaping distributes over concatenation, so characters are handled one at a time and kept in order |
| `OdsApi.EscapeOne` | ods_api/__init__.py:30 | a space becomes exactly `%20`; any other character is kept as it is |
| `OdsApi.EscapeFixpointIff` | ods_api/__init__.py:30 | escaping leaves a string unchanged if and only if it has no space |
| `OdsApi.EscapeIdempotent` | ods_api/__init__.py:30 | escaping twice gives the same string as escaping once |
| `OdsApi.RequestUrlParts` | ods_api/__init__.py:35 | the URL is the `/Get` endpoint, then `?Open&DS=`, then the escaped symbol, then `&Lang=` and the language, with nothing else (length and each part) |
| `OdsApi.RequestUrlNoSpaceIff` | ods_api/__init__.py:30-35 | the URL of an escaped symbol contains a space if and only if the language does; the language is not checked |
| `OdsApi.RequestUrlInjective` | ods_api/__init__.py:35 | for one language, two URLs are equal if and only if the escaped symbols are equal |
| `OdsApi.RequestUrlIsNotCookieUrl` | ods_api/__init__.py:9-10 | no document URL equals the warm-up URL |
| `OdsApi.MarkerBytes` | ods_api/__init__.py:49 | the bytes 0x25 0x50 0x44 0x46 decode to `%PDF` |
| `OdsApi.LooksLikePdfIff` | ods_api/__init__.py:47-49 | the decoded-text check passes if and only if the four signature bytes lie wholly inside the first min(8192, length) bytes |
| `OdsApi.LateSignatureRejected` | ods_api/__init__.py:49 | 8189 bytes with no `%` followed by `%PDF` do contain the signature, starting at offset 8189, and are still rejected |
| `OdsApi.LooksLikePdfPrefixOnly` | ods_api/__init__.py:49 | bytes after the first 8192 never change the check's verdict |
| `OdsApi.Message` | ods_api/__init__.py:50-55 | the message of a failed request ends with the request URL, after a non-empty prefix |
| `OdsApi.FileTarget` | ods_api/__init__.py:39-42 | a path is used if and only if it is given and non-empty, the truthiness of `if save_path:`; otherwise a temporary file is used |
| `OdsApi.Ods.constructor` | ods_api/__init__.py:8 | the class-level session starts with no cookies; nothing has been sent or opened |
| `OdsApi.Ods.Get` | ods_api/__init__.py:36 | a GET appends its URL to the history, adds the reply's cookies to the jar, and hands back the reply |
| `OdsApi.Ods.Download` | ods_api/__init__.py:13-55 | warm-up GET if and only if `sessionID` was absent; the exact GET history and new cookie jar; non-200 gives `RequestFailed(url)` and opens no file; 200 opens exactly one file at the given-or-temporary target; success if and only if status is 200 and the PDF check passes; a 200 reply that fails the check gives `NotAPdf`; on success the file is new, holds exactly the body and is at position 0 |
| `Bytes.Latin1Decode` | ods_api/__init__.py:49 | decoding is total and length-preserving, and each character has the code of its byte (below 256) |
| `Bytes.Latin1RoundTrip` | ods_api/__init__.py:49 | encoding the decoded text gives back the bytes |
| `Bytes.Latin1DecodeInjective` | ods_api/__init__.py:49 | two byte sequences decode to the same text if and only if they are equal |
| `Bytes.OccursIff` | ods_api/__init__.py:49 | Python's `pat in s` holds if and only if `pat` starts at some offset of `s` that leaves room for all of it |
| `Transport.IterContent` | ods_api/__init__.py:44 | `iter_content(8192)` yields non-empty chunks of at most 8192 bytes, all full except the last, whose concatenation in order is the body |
| `Transport.ConcatSnoc` | ods_api/__init__.py:44-45 | appending a chunk to the list appends its bytes to the concatenation |
| `FileIo.Overwrite` | ods_api/__init__.py:45 | writing at a position puts the chunk there, keeps every other byte, and fills a gap past the end with zero bytes |
| `FileIo.OverwriteAtEnd` | ods_api/__init__.py:44-45 | writing at the end of the file appends |
| `FileIo.Window` | ods_api/__init__.py:49 | `read(n)` returns the next min(n, remaining) bytes from the position, or nothing past the end |
| `FileIo.FileObject.Open` | ods_api/__init__.py:39-42 | a file opened `wb+`, or a temporary file, starts empty at position 0 and carries its path |
| `FileIo.FileObject.Write` | ods_api/__init__.py:45 | the new contents are the old ones overwritten at the position, and the position moves past the chunk |
| `FileIo.FileObject.Seek` | ods_api/__init__.py:47-52 | `seek(offset)` sets the position and leaves the bytes unchanged |
| `FileIo.FileObject.Read` | ods_api/__init__.py:49 | `read(n)` returns the window at the position, leaves the bytes unchanged and advances the position by the number of bytes read |

`OdsApi.WarmUpOnlyOnce` is a client of `Download`. One session makes three
calls in a row, with any replies and any save paths, and its first warm-up
obtains `sessionID`. The method proves that the warm-up URL then appears
exactly once in the GET history.

## Left out

- The real HTTP stack (`requests.Session`, redirects it follows on its own,
  content decoding, timeouts): replies are parameters of `Download`, and
  cookies are tracked by name only (no domain, path or expiry).
- `session.get` raising instead of answering: a connection error at the
  warm-up (`ods_api/__init__.py:33`) or the document GET
  (`ods_api/__init__.py:36`) makes `download` raise before any file is
  opened. The model assumes every GET returns a reply.
- `download` ignores the warm-up reply apart from its cookies. Its status is
  not checked, and the model does not check it either.
- The real file system: a file is its bytes and a position. The model does
  not capture that a file written at `save_path` stays on disk, or that it
  stays there when the PDF check fails. It also leaves out that the file is
  never closed, and the I/O errors `open` can raise.
- Concurrent use of the class-level shared session: calls are sequential.
- `ods_api/script/ods_dlx.py` (command-line glue: argument parsing, the
  catalogue and S3 calls behind the external `dlx` library, the loop over
  symbols and languages) and `setup.py` (packaging) are not part of this
  model.
- `FileNotFound`: declared at `ods_api/__init__.py:4-5` and never raised by `download`.
- The exception messages are given by `OdsApi.Message`. They are not
  separate exception classes, because `download` raises plain `Exception`.
