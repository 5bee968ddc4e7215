/** `ODS.download`: fetch the document with a given symbol and language from
    the UN Official Document System, buffer it in a file object and check that
    it looks like a PDF. */
module OdsApi {
  import opened Bytes
  import opened Wrappers
  import opened Transport
  import opened FileIo

  const CookieUrl := "https://documents.un.org"
  const BaseUrl := "http://daccess-ods.un.org/access.nsf/Get"
  /** The cookie whose presence means the session is already established. */
  const SessionCookie := "sessionID"
  /** The chunk size passed to `iter_content` and the length of the prefix
      read back for the PDF check; both are 8192 in `download`. */
  const ChunkSize := 8192
  const ReadSize := 8192
  const PdfMarker := "%PDF"
  const PdfBytes: seq<byte> := [0x25, 0x50, 0x44, 0x46]

  // ---------------------------------------------------------------------------
  // Escaping the symbol: `symbol.replace(' ', '%20')`

  function EscapeChar(c: char): string
  {
    if c == ' ' then "%20" else [c]
  }

  /** Every space becomes `%20`; the result has no space left and grows by two
      characters per space. */
  function EscapeSymbol(s: string): (r: string)
    ensures ' ' !in r
    ensures |r| == |s| + 2 * multiset(s)[' ']
  {
    if s == [] then []
    else
      assert s == [s[0]] + s[1..];
      EscapeChar(s[0]) + EscapeSymbol(s[1..])
  }

  /** Escaping works character by character: it distributes over
      concatenation, so every other character is kept, in order. */
  lemma {:induction false} EscapeAppend(a: string, b: string)
    ensures EscapeSymbol(a + b) == EscapeSymbol(a) + EscapeSymbol(b)
  {
    if a == [] {
      assert a + b == b;
    } else {
      assert (a + b)[0] == a[0] && (a + b)[1..] == a[1..] + b;
      EscapeAppend(a[1..], b);
    }
  }

  /** A single character: a space becomes `%20`, anything else stays. */
  lemma EscapeOne(c: char)
    ensures EscapeSymbol([c]) == if c == ' ' then "%20" else [c]
  {
    assert [c][1..] == [];
  }

  /** Escaping leaves a string unchanged exactly when it has no space. */
  lemma {:induction false} EscapeFixpointIff(s: string)
    ensures EscapeSymbol(s) == s <==> ' ' !in s
  {
    if s != [] {
      assert s == [s[0]] + s[1..];
      EscapeFixpointIff(s[1..]);
      if ' ' !in s {
        assert ' ' !in s[1..];
      }
    }
  }

  /** Escaping twice is escaping once. */
  lemma EscapeIdempotent(s: string)
    ensures EscapeSymbol(EscapeSymbol(s)) == EscapeSymbol(s)
  {
    EscapeFixpointIff(EscapeSymbol(s));
  }

  // ---------------------------------------------------------------------------
  // The request URL: `'{}?Open&DS={}&Lang={}'.format(base_url, symbol, language)`

  const QueryHead := BaseUrl + "?Open&DS="
  const LangTag := "&Lang="

  /** The URL for an already escaped symbol; the language is put in as given,
      checked against no list of codes. */
  function RequestUrl(escaped: string, language: string): string
  {
    QueryHead + escaped + LangTag + language
  }

  /** The URL starts with the `/Get` endpoint and the query head, then carries
      the symbol, then the language tag and the language, nothing else. */
  lemma RequestUrlParts(escaped: string, language: string)
    ensures var url := RequestUrl(escaped, language);
      |url| == |QueryHead| + |escaped| + |LangTag| + |language| &&
      url[..|BaseUrl|] == BaseUrl &&
      url[..|QueryHead|] == QueryHead &&
      url[|QueryHead|..|QueryHead| + |escaped|] == escaped &&
      url[|QueryHead| + |escaped|..] == LangTag + language
  {
    var url := RequestUrl(escaped, language);
    assert url == QueryHead + (escaped + (LangTag + language));
    assert QueryHead[..|BaseUrl|] == BaseUrl;
  }

  /** The URL for an escaped symbol has a space exactly when the language has. */
  lemma RequestUrlNoSpaceIff(symbol: string, language: string)
    ensures ' ' !in RequestUrl(EscapeSymbol(symbol), language) <==> ' ' !in language
  {
    assert ' ' !in QueryHead;
    assert ' ' !in LangTag;
  }

  /** For one language, two symbols give the same URL exactly when they
      escape to the same text. */
  lemma RequestUrlInjective(e1: string, e2: string, language: string)
    ensures RequestUrl(e1, language) == RequestUrl(e2, language) <==> e1 == e2
  {
    if RequestUrl(e1, language) == RequestUrl(e2, language) {
      RequestUrlParts(e1, language);
      RequestUrlParts(e2, language);
    }
  }

  /** No request URL is the warm-up URL, so the two kinds of GET can be told
      apart in the session's history. */
  lemma RequestUrlIsNotCookieUrl(escaped: string, language: string)
    ensures RequestUrl(escaped, language) != CookieUrl
  {
    var url := RequestUrl(escaped, language);
    RequestUrlParts(escaped, language);
    assert url[4] == BaseUrl[4] == ':' != CookieUrl[4];
  }

  // ---------------------------------------------------------------------------
  // The PDF check: `'%PDF' not in fileobj.read(8192).decode('iso8859')`

  /** The bytes read back from offset 0 for the check. */
  function Head(data: seq<byte>): seq<byte>
  {
    data[..Min(ReadSize, |data|)]
  }

  /** The check as `download` performs it, on the decoded prefix. */
  predicate LooksLikePdf(data: seq<byte>)
  {
    Occurs(PdfMarker, Latin1Decode(Head(data)))
  }

  /** The four signature bytes start at offset `i` of `data`. */
  predicate SignatureAt(data: seq<byte>, i: int)
  {
    0 <= i && i + 4 <= |data| && data[i..i + 4] == PdfBytes
  }

  lemma MarkerBytes()
    ensures Latin1Decode(PdfBytes) == PdfMarker
  {
    var d := Latin1Decode(PdfBytes);
    assert d[0] as int == 0x25 && d[1] as int == 0x50 && d[2] as int == 0x44 && d[3] as int == 0x46;
    assert d == PdfMarker;
  }

  /** The text test is a byte test: the check passes exactly when the four
      bytes 0x25 0x50 0x44 0x46 lie wholly inside the first
      min(8192, length) bytes. */
  lemma LooksLikePdfIff(data: seq<byte>)
    ensures LooksLikePdf(data) <==> exists i :: SignatureAt(data, i) && i + 4 <= ReadSize
  {
    var head := Head(data);
    var text := Latin1Decode(head);
    OccursIff(PdfMarker, text);
    MarkerBytes();
    if LooksLikePdf(data) {
      var i :| OccursAt(PdfMarker, text, i);
      Latin1DecodeSlice(head, i, i + 4);
      Latin1DecodeInjective(head[i..i + 4], PdfBytes);
      assert head[i..i + 4] == data[i..i + 4];
      assert SignatureAt(data, i);
    }
    if i :| SignatureAt(data, i) && i + 4 <= ReadSize {
      assert head[i..i + 4] == data[i..i + 4];
      Latin1DecodeSlice(head, i, i + 4);
      assert OccursAt(PdfMarker, text, i);
    }
  }

  /** A signature that only starts after offset 8188 is not seen: 8189 bytes
      without a `%`, then `%PDF`, is rejected although it holds the signature. */
  lemma LateSignatureRejected(pad: seq<byte>)
    requires |pad| == ReadSize - 3
    requires 0x25 !in pad
    ensures SignatureAt(pad + PdfBytes, |pad|)
    ensures !LooksLikePdf(pad + PdfBytes)
  {
    var data := pad + PdfBytes;
    assert data[|pad|..|pad| + 4] == PdfBytes;
    LooksLikePdfIff(data);
    forall i | 0 <= i && i + 4 <= ReadSize ensures !SignatureAt(data, i) {
      assert data[i] == pad[i] != 0x25;
      assert data[i..i + 4][0] == data[i];
    }
  }

  /** Only the prefix matters: bytes after the first 8192 never change the
      verdict. */
  lemma LooksLikePdfPrefixOnly(data: seq<byte>, more: seq<byte>)
    requires |data| >= ReadSize
    ensures LooksLikePdf(data + more) == LooksLikePdf(data)
  {
    assert Head(data + more) == Head(data);
  }

  // ---------------------------------------------------------------------------
  // Errors: `download` raises a plain Exception with one of two messages.

  datatype Failure = RequestFailed(url: string) | NotAPdf

  /** The message of the exception raised; a failed request names its URL,
      which ends the message. */
  function Message(f: Failure): (m: string)
    ensures f.RequestFailed? ==> |f.url| <= |m| && m[|m| - |f.url|..] == f.url
    ensures f.RequestFailed? ==> |m| > |f.url|
  {
    match f
    case RequestFailed(url) => "Request failed to " + url
    case NotAPdf => "Target file doesn't look like a PDF"
  }

  /** `if save_path:` -- a missing or empty path means a temporary file. */
  function FileTarget(savePath: Option<string>): (t: Option<string>)
    ensures t.Some? <==> savePath.Some? && savePath.value != ""
    ensures t.Some? ==> t == savePath
  {
    if savePath.Some? && savePath.value != "" then savePath else None
  }

  // ---------------------------------------------------------------------------
  // The class and its shared session

  /** The `ODS` class. Its class-level `session` is shared by every call;
      here it is the cookie jar (the names of the cookies the session holds).
      `sent` is the history of the GETs issued and `files` that of the files
      opened, for stating what a call did. */
  class Ods {
    var cookies: set<string>
    ghost var sent: seq<string>
    ghost var files: seq<Option<string>>

    /** A fresh `Session()`: no cookies, nothing sent, nothing opened. */
    constructor ()
      ensures cookies == {} && sent == [] && files == []
    {
      cookies := {};
      sent := [];
      files := [];
    }

    /** `session.get(url)`: the transport answers with `reply`, whose cookies
        join the jar. */
    method Get(url: string, reply: Response) returns (response: Response)
      modifies this
      ensures response == reply
      ensures cookies == old(cookies) + reply.setCookies
      ensures sent == old(sent) + [url] && files == old(files)
    {
      cookies := cookies + reply.setCookies;
      sent := sent + [url];
      response := reply;
    }

    /** `ODS.download(symbol, language, save_path)`. The transport's answers
        are parameters: `warmUpReply` to the warm-up GET (if one is issued)
        and `reply` to the document GET. */
    method Download(symbol: string, language: string, savePath: Option<string>,
                    warmUpReply: Response, reply: Response)
      returns (r: Result<FileObject, Failure>)
      modifies this
      // the warm-up GET happens exactly when the session has no `sessionID`
      ensures var warm := SessionCookie !in old(cookies);
        sent == old(sent) + (if warm then [CookieUrl] else []) + [RequestUrl(EscapeSymbol(symbol), language)] &&
        cookies == old(cookies) + (if warm then warmUpReply.setCookies else {}) + reply.setCookies
      // a status other than 200 fails with the URL and opens no file
      ensures reply.status != 200 ==>
        r == Err(RequestFailed(RequestUrl(EscapeSymbol(symbol), language))) && files == old(files)
      ensures reply.status == 200 ==> files == old(files) + [FileTarget(savePath)]
      // a 200 reply whose first 8192 bytes lack the signature is rejected
      ensures reply.status == 200 && !LooksLikePdf(reply.body) ==> r == Err(NotAPdf)
      ensures r.Ok? <==> reply.status == 200 && LooksLikePdf(reply.body)
      // the file returned is new, holds the body exactly and is rewound
      ensures r.Ok? ==>
        fresh(r.value) && r.value.data == reply.body && r.value.pos == 0 &&
        r.value.name == FileTarget(savePath)
    {
      var escaped := EscapeSymbol(symbol);
      if SessionCookie !in cookies {
        var _ := Get(CookieUrl, warmUpReply);
      }
      var url := RequestUrl(escaped, language);
      var response := Get(url, reply);
      if response.status == 200 {
        var target := FileTarget(savePath);
        var f := new FileObject.Open(target);
        files := files + [target];
        var chunks := IterContent(response.body, ChunkSize);
        for i := 0 to |chunks|
          modifies f
          invariant f.data == Concat(chunks[..i]) && f.pos == |f.data|
        {
          OverwriteAtEnd(f.data, chunks[i]);
          ConcatSnoc(chunks[..i], chunks[i]);
          assert chunks[..i + 1] == chunks[..i] + [chunks[i]];
          f.Write(chunks[i]);
        }
        assert chunks[..|chunks|] == chunks;
        f.Seek(0);
        var head := f.Read(ReadSize);
        assert head == Head(response.body);
        if !Occurs(PdfMarker, Latin1Decode(head)) {
          r := Err(NotAPdf);
        } else {
          f.Seek(0);
          r := Ok(f);
        }
      } else {
        r := Err(RequestFailed(url));
      }
    }
  }

  /** Three calls in a row on one session, with any replies and any save
      paths, where the first warm-up obtains `sessionID`: only the first call
      warms up. */
  method WarmUpOnlyOnce(s1: string, s2: string, s3: string, language: string,
                        p1: Option<string>, p2: Option<string>, p3: Option<string>,
                        w1: Response, w2: Response, w3: Response,
                        a: Response, b: Response, c: Response)
    requires SessionCookie in w1.setCookies
  {
    var ods := new Ods();
    var r1 := ods.Download(s1, language, p1, w1, a);
    var r2 := ods.Download(s2, language, p2, w2, b);
    var r3 := ods.Download(s3, language, p3, w3, c);
    assert ods.sent == [CookieUrl, RequestUrl(EscapeSymbol(s1), language),
                        RequestUrl(EscapeSymbol(s2), language),
                        RequestUrl(EscapeSymbol(s3), language)];
    RequestUrlIsNotCookieUrl(EscapeSymbol(s1), language);
    RequestUrlIsNotCookieUrl(EscapeSymbol(s2), language);
    RequestUrlIsNotCookieUrl(EscapeSymbol(s3), language);
    assert multiset(ods.sent)[CookieUrl] == 1;
  }
}
