/**
 * Sending file contents: the chunked raw stream of `_serve_file_content`
 * (server.py) and the encoding fallback of server2.py's
 * `handle_text_file`. A response is the sequence of status lines written
 * and the body chunks; headers other than the content type are not modelled.
 */
module Streaming {
  import opened Wrappers
  import opened Strings

  newtype Byte = x: int | 0 <= x < 256

  /** `FILE_CHUNK_SIZE = 16 * 1024` */
  const FileChunkSize: nat := 16384

  // ---------------------------------------------------------------------------
  // Chunking
  // ---------------------------------------------------------------------------

  /** The successive results of `f.read(n)` until the empty read. */
  function Chunks<T>(s: seq<T>, n: nat): seq<seq<T>>
    requires n > 0
    decreases |s|
  {
    if s == [] then [] else [s[..Min(n, |s|)]] + Chunks(s[Min(n, |s|)..], n)
  }

  function Flatten<T>(cs: seq<seq<T>>): seq<T>
  {
    if cs == [] then [] else cs[0] + Flatten(cs[1..])
  }

  /** The chunks give back the whole content in order. */
  lemma {:induction false} ChunksFlatten<T>(s: seq<T>, n: nat)
    requires n > 0
    ensures Flatten(Chunks(s, n)) == s
    decreases |s|
  {
    if s != [] {
      var m := Min(n, |s|);
      ChunksFlatten(s[m..], n);
      assert s == s[..m] + s[m..];
    }
  }

  /** No chunk is empty or longer than `n`, and all but the last are exactly `n` long. */
  lemma {:induction false} ChunksSizes<T>(s: seq<T>, n: nat)
    requires n > 0
    ensures forall i :: 0 <= i < |Chunks(s, n)| ==> 0 < |Chunks(s, n)[i]| <= n
    ensures forall i :: 0 <= i < |Chunks(s, n)| - 1 ==> |Chunks(s, n)[i]| == n
    decreases |s|
  {
    if s != [] {
      var m := Min(n, |s|);
      ChunksSizes(s[m..], n);
      var c := Chunks(s, n);
      assert c[1..] == Chunks(s[m..], n);
      if m < n {
        assert s[m..] == [];
      }
    }
  }

  /** There are ceil(|s| / n) chunks: none for no content, and enough of `n` for the rest. */
  lemma {:induction false} ChunksCount<T>(s: seq<T>, n: nat)
    requires n > 0
    ensures |Chunks(s, n)| == 0 <==> s == []
    ensures s != [] ==> (|Chunks(s, n)| - 1) * n < |s| <= |Chunks(s, n)| * n
    decreases |s|
  {
    if s != [] {
      var m := Min(n, |s|);
      var k := |Chunks(s[m..], n)|;
      ChunksCount(s[m..], n);
      assert |Chunks(s, n)| == k + 1;
      assert (k + 1) * n == k * n + n;
    }
  }

  /** A prefix of the chunks is a prefix of the content. */
  lemma {:induction false} FlattenPrefix<T>(cs: seq<seq<T>>, k: nat)
    requires k <= |cs|
    ensures Flatten(cs[..k]) <= Flatten(cs)
  {
    if k > 0 {
      FlattenPrefix(cs[1..], k - 1);
      assert cs[..k][1..] == cs[1..][..k - 1];
    }
  }

  lemma ChunksUnfold<T>(s: seq<T>, n: nat)
    requires n > 0 && s != []
    ensures Chunks(s, n) == [s[..Min(n, |s|)]] + Chunks(s[Min(n, |s|)..], n)
  {
  }

  /**
   * `while True: chunk = f.read(n); if not chunk: break; write(chunk)`.
   * `failAt`, when given, is the number of the read that raises `IOError`
   * (reads are numbered from 0, the final empty read included).
   */
  method StreamChunks<T>(data: seq<T>, n: nat, failAt: Option<nat>) returns (written: seq<seq<T>>, failed: bool)
    requires n > 0
    ensures failed <==> failAt.Some? && failAt.value <= |Chunks(data, n)|
    ensures failed ==> written == Chunks(data, n)[..failAt.value]
    ensures !failed ==> written == Chunks(data, n)
  {
    var pos := 0;
    written := [];
    while true
      invariant 0 <= pos <= |data|
      invariant written + Chunks(data[pos..], n) == Chunks(data, n)
      invariant failAt.Some? ==> |written| <= failAt.value
      decreases |data| - pos
    {
      if failAt == Some(|written|) {
        PrefixOfAppend(written, Chunks(data[pos..], n), Chunks(data, n));
        return written, true;
      }
      var chunk := data[pos..Min(pos + n, |data|)];
      if chunk == [] {
        break;
      }
      StreamStep(data, n, pos, written);
      written := written + [chunk];
      pos := pos + |chunk|;
    }
    assert data[pos..] == [];
    failed := false;
  }

  lemma PrefixOfAppend<T>(a: seq<T>, b: seq<T>, c: seq<T>)
    requires a + b == c
    ensures |a| <= |c| && c[..|a|] == a
  {
    assert c[..|a|] == (a + b)[..|a|];
  }

  /** One read moves the next chunk from what is left to what is written. */
  lemma StreamStep<T>(data: seq<T>, n: nat, pos: nat, written: seq<seq<T>>)
    requires n > 0 && pos < |data|
    requires written + Chunks(data[pos..], n) == Chunks(data, n)
    ensures var k := Min(pos + n, |data|);
            pos < k && (written + [data[pos..k]]) + Chunks(data[k..], n) == Chunks(data, n)
  {
    var k := Min(pos + n, |data|);
    var rest := data[pos..];
    ChunksUnfold(rest, n);
    assert rest[..Min(n, |rest|)] == data[pos..k];
    assert rest[Min(n, |rest|)..] == data[k..];
    AppendAssoc(written, [data[pos..k]], Chunks(data[k..], n));
  }

  datatype Response<T> = Response(statuses: seq<nat>, body: seq<seq<T>>)

  /**
   * `_serve_file_content`: 404 when the path is not a file; otherwise 200
   * and the file in chunks of 16384 bytes. A read error after the 200 is
   * answered by `send_error(404)`, whose status line follows the 200.
   */
  method ServeFileContent(isFile: bool, data: seq<Byte>, failAt: Option<nat>) returns (r: Response<Byte>)
    ensures !isFile ==> r == Response([404], [])
    ensures isFile && failAt == None ==> r.statuses == [200] && Flatten(r.body) == data
    ensures isFile ==> (r.statuses == [200] || r.statuses == [200, 404]) && Flatten(r.body) <= data
    ensures isFile ==> forall i :: 0 <= i < |r.body| ==> 0 < |r.body[i]| <= FileChunkSize
    ensures isFile ==> |r.body| <= |Chunks(data, FileChunkSize)| && r.body == Chunks(data, FileChunkSize)[..|r.body|]
    ensures isFile && failAt == None ==> r.body == Chunks(data, FileChunkSize)
  {
    if !isFile {
      return Response([404], []);
    }
    var written, failed := StreamChunks(data, FileChunkSize, failAt);
    ChunksFlatten(data, FileChunkSize);
    ChunksSizes(data, FileChunkSize);
    FlattenPrefix(Chunks(data, FileChunkSize), |written|);
    assert written == Chunks(data, FileChunkSize)[..|written|];
    r := Response(if failed then [200, 404] else [200], written);
  }

  // ---------------------------------------------------------------------------
  // server2.py: decoding with a fallback list of encodings
  // ---------------------------------------------------------------------------

  datatype Encoding = Utf8 | Gbk | Latin1

  /** `encodings_to_try = ['utf-8', 'gbk', 'latin-1']` */
  const EncodingsToTry: seq<Encoding> := [Utf8, Gbk, Latin1]

  function EncodingName(e: Encoding): string
  {
    match e
    case Utf8 => "utf-8"
    case Gbk => "gbk"
    case Latin1 => "latin-1"
  }

  /** Latin-1 maps every byte to the character with the same code, so it never fails. */
  function DecodeLatin1(b: seq<Byte>): (s: string)
    ensures |s| == |b|
    ensures forall i :: 0 <= i < |b| ==> s[i] as int == b[i] as int
  {
    if b == [] then [] else [(b[0] as int) as char] + DecodeLatin1(b[1..])
  }

  /** `content.encode('latin-1', errors='replace')`: characters beyond U+00FF become `?`. */
  function EncodeLatin1(s: string): (b: seq<Byte>)
    ensures |b| == |s|
  {
    if s == [] then []
    else [if s[0] as int < 256 then (s[0] as int) as Byte else '?' as int as Byte] + EncodeLatin1(s[1..])
  }

  /**
   * Text-mode reading with the default `newline=None`: `\r\n` and a lone `\r`
   * both become `\n`.
   */
  function Newlines(s: string): (r: string)
    ensures '\r' !in r
    ensures |r| <= |s|
  {
    if s == [] then []
    else if s[0] == '\r' then
      "\n" + Newlines(if |s| > 1 && s[1] == '\n' then s[2..] else s[1..])
    else [s[0]] + Newlines(s[1..])
  }

  lemma {:induction false} NewlinesIdentity(s: string)
    requires '\r' !in s
    ensures Newlines(s) == s
  {
    if s != [] {
      NewlinesIdentity(s[1..]);
    }
  }

  /** Decoding then encoding with Latin-1 gives back the bytes, however they look. */
  lemma {:induction false} Latin1RoundTrip(b: seq<Byte>)
    ensures EncodeLatin1(DecodeLatin1(b)) == b
  {
    if b != [] {
      Latin1RoundTrip(b[1..]);
    }
  }

  /** A file read with the Latin-1 fallback is sent back byte for byte unless it holds a carriage return. */
  lemma Latin1ServesBytes(b: seq<Byte>)
    requires 13 !in b
    ensures EncodeLatin1(Newlines(DecodeLatin1(b))) == b
  {
    var s := DecodeLatin1(b);
    forall i | 0 <= i < |s| ensures s[i] != '\r' {
      assert b[i] != 13;
    }
    NewlinesIdentity(s);
    Latin1RoundTrip(b);
  }

  /** A CRLF line end is sent as a bare LF. */
  lemma CrLfFolded()
    ensures EncodeLatin1(Newlines(DecodeLatin1([13, 10]))) == [10]
  {
    assert DecodeLatin1([13, 10]) == "\r\n";
    assert Newlines("\r\n") == "\n";
  }

  /** The decoder result for each encoding: UTF-8 and GBK may fail; Latin-1 cannot. */
  function Decoded(e: Encoding, raw: seq<Byte>, utf8: Option<string>, gbk: Option<string>): Option<string>
  {
    match e
    case Utf8 => utf8
    case Gbk => gbk
    case Latin1 => Some(DecodeLatin1(raw))
  }

  /** The first encoding of the list whose decoder succeeds. */
  function FirstDecoding(raw: seq<Byte>, utf8: Option<string>, gbk: Option<string>): (e: Encoding)
    ensures EncodingsToTry[IndexOf(e)] == e && Decoded(e, raw, utf8, gbk).Some?
    ensures forall i :: 0 <= i < IndexOf(e) ==> Decoded(EncodingsToTry[i], raw, utf8, gbk) == None
  {
    if utf8.Some? then Utf8 else if gbk.Some? then Gbk else Latin1
  }

  function IndexOf(e: Encoding): (i: nat)
    ensures i < |EncodingsToTry|
  {
    match e
    case Utf8 => 0
    case Gbk => 1
    case Latin1 => 2
  }

  /**
   * The loop over `encodings_to_try`, stopping at the first `f.read()` that
   * does not raise `UnicodeDecodeError`. `utf8` and `gbk` are what the two
   * codecs make of the file (None on a decoding error).
   */
  method ReadText(raw: seq<Byte>, utf8: Option<string>, gbk: Option<string>)
    returns (content: Option<string>, used: Option<Encoding>)
    ensures content.Some? && used.Some?
    ensures used.value == FirstDecoding(raw, utf8, gbk)
    ensures content.value == Newlines(Decoded(used.value, raw, utf8, gbk).value)
  {
    content, used := None, None;
    var i := 0;
    while i < |EncodingsToTry|
      invariant 0 <= i < |EncodingsToTry|  // Latin-1, the last one, always succeeds
      invariant content == None && used == None
      invariant forall j :: 0 <= j < i ==> Decoded(EncodingsToTry[j], raw, utf8, gbk) == None
    {
      var enc := EncodingsToTry[i];
      var d := Decoded(enc, raw, utf8, gbk);
      if d.Some? {
        content, used := Some(Newlines(d.value)), Some(enc);
        break;
      }
      i := i + 1;
    }
  }

  /** Where an `IOError` interrupts server2.py's `handle_text_file`, if it does. */
  datatype TextFault =
    | Unfailing
    | OpenFails    // the file vanished or became unreadable after the `is_file` test
    | WriteFails   // writing the text to the client fails

  datatype TextResponse = TextResponse(statuses: seq<nat>, contentType: string, text: string)

  /**
   * server2.py's `handle_text_file`. The "not text" 404 is never sent,
   * because Latin-1 accepts every file; the declared charset names the
   * encoding that read the file. An `IOError` from `open` answers 404 alone;
   * one from the write answers 404 after the 200.
   */
  method HandleTextFile2(mime: string, raw: seq<Byte>, utf8: Option<string>, gbk: Option<string>, fault: TextFault)
    returns (r: TextResponse)
    ensures fault == OpenFails ==> r == TextResponse([404], "", "")
    ensures fault == Unfailing ==> r.statuses == [200]
    ensures fault == WriteFails ==> r.statuses == [200, 404]
    ensures fault != OpenFails ==>
              r.contentType == mime + "; charset=" + EncodingName(FirstDecoding(raw, utf8, gbk))
    ensures fault != OpenFails && utf8.Some? ==> r.text == Newlines(utf8.value)
    ensures fault != OpenFails && utf8 == None && gbk.Some? ==> r.text == Newlines(gbk.value)
    ensures fault != OpenFails && utf8 == None && gbk == None ==> r.text == Newlines(DecodeLatin1(raw))
  {
    if fault == OpenFails {
      return TextResponse([404], "", "");
    }
    var content, used := ReadText(raw, utf8, gbk);
    if content == None {
      // `send_error(404, "File not found or not text")`: Latin-1 never fails
      assert false;
    } else {
      var statuses := if fault == WriteFails then [200, 404] else [200];
      r := TextResponse(statuses, mime + "; charset=" + EncodingName(used.value), content.value);
    }
  }
}
