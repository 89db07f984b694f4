/**
 * Serving a montage (app/src/Controllers/MontageController.php): the hash
 * in the URL is checked before any file is looked at, then the JPEG is
 * sent with its length, cache headers and an ETag.
 *
 * The file system is given as functions of the path; the HTTP date format
 * of gmdate is a parameter.
 */
module MontageController {
  import opened Wrappers
  import Text

  predicate HexDigit(c: char) {
    '0' <= c <= '9' || 'a' <= c <= 'f' || 'A' <= c <= 'F'
  }

  predicate AllHex(s: string) {
    forall i :: 0 <= i < |s| ==> HexDigit(s[i])
  }

  /**
   * /^[a-f0-9]{32}$/i: 32 hexadecimal digits in either case. Without the D
   * modifier `$` also matches before a final newline, so the 32 digits may
   * be followed by one "\n".
   */
  predicate ValidHash(hash: string) {
    (|hash| == 32 && AllHex(hash)) || (|hash| == 33 && AllHex(hash[..32]) && hash[32] == '\n')
  }

  /** The file system as show sees it: is_file, file_get_contents (None for false), filemtime, md5_file. */
  datatype Files = Files(isFile: string -> bool, read: string -> Option<seq<int>>,
                         mtime: string -> int, md5: string -> string)

  datatype Response = Response(code: int, headers: map<string, string>, body: seq<int>)

  /** The bytes of a plain ASCII text. */
  function Ascii(s: string): (b: seq<int>)
    ensures |b| == |s| && forall i :: 0 <= i < |s| ==> b[i] == s[i] as int
  {
    seq(|s|, i requires 0 <= i < |s| => s[i] as int)
  }

  /** The plain-text answers for a bad hash or a missing file, and for a file that cannot be read. */
  const NotFound := Response(404, map["Content-Type" := "text/plain"], Ascii("Not Found"))
  const ServerError := Response(500, map["Content-Type" := "text/plain"], Ascii("Internal Server Error"))

  /** The file a hash names under the data directory. */
  function MontageFile(dataPath: string, hash: string): (path: string)
    ensures Text.StartsWith(path, dataPath + "/montage/")
  {
    var prefix := dataPath + "/montage/";
    var path := prefix + hash + ".jpg";
    assert path[..|prefix|] == prefix;
    path
  }

  /**
   * show: 404 for a bad hash or a missing file, 500 when the file cannot be
   * read, else 200 with the bytes. `touched` lists the paths the file
   * system was asked about; `now` stands in for a zero modification time.
   */
  function Show(hashArg: Option<string>, dataPath: string, fs: Files, now: int, httpDate: int -> string)
    : (r: (Response, seq<string>))
    ensures var hash := hashArg.GetOr("");
            !ValidHash(hash) ==> r.0 == NotFound && r.1 == []
    ensures var hash := hashArg.GetOr("");
            ValidHash(hash) ==> r.1 == [MontageFile(dataPath, hash)]
    ensures var path := MontageFile(dataPath, hashArg.GetOr(""));
            ValidHash(hashArg.GetOr("")) && !fs.isFile(path) ==> r.0 == NotFound
    ensures var path := MontageFile(dataPath, hashArg.GetOr(""));
            ValidHash(hashArg.GetOr("")) && fs.isFile(path) && fs.read(path).None? ==> r.0 == ServerError
    ensures r.0.code == 200 <==> ValidHash(hashArg.GetOr("")) && fs.isFile(MontageFile(dataPath, hashArg.GetOr("")))
                                 && fs.read(MontageFile(dataPath, hashArg.GetOr(""))).Some?
    ensures r.0.code == 200 ==>
              var path := MontageFile(dataPath, hashArg.GetOr(""));
              r.0.body == fs.read(path).value
              && "Content-Length" in r.0.headers && "ETag" in r.0.headers && "Content-Type" in r.0.headers
              && r.0.headers["Content-Length"] == Text.IntToString(|r.0.body|)
              && r.0.headers["ETag"] == "\"" + fs.md5(path) + "\""
              && r.0.headers["Content-Type"] == "image/jpeg"
  {
    var hash := hashArg.GetOr("");
    if !ValidHash(hash) then (NotFound, [])
    else
      var path := MontageFile(dataPath, hash);
      if !fs.isFile(path) then (NotFound, [path])
      else
        var content := fs.read(path);
        if content.None? then (ServerError, [path])
        else
          var modified := if fs.mtime(path) != 0 then fs.mtime(path) else now;
          (Response(200, map["Content-Type" := "image/jpeg",
                             "Content-Length" := Text.IntToString(|content.value|),
                             "Cache-Control" := "public, max-age=86400",
                             "Last-Modified" := httpDate(modified) + " GMT",
                             "ETag" := "\"" + fs.md5(path) + "\""], content.value), [path])
  }

  /** A valid hash never leaves the montage directory: it holds no '/' and no '.'. */
  lemma ValidHashStaysInDirectory(hash: string)
    requires ValidHash(hash)
    ensures '/' !in hash && '.' !in hash
  {
    if |hash| == 33 {
      assert hash == hash[..32] + [hash[32]];
      assert forall i :: 0 <= i < 32 ==> hash[i] == hash[..32][i];
    }
  }

  /** The montage file names md5 produces, 32 lower-case hex digits, are all accepted. */
  lemma Md5NamesAccepted(hash: string)
    requires |hash| == 32 && forall i :: 0 <= i < 32 ==> '0' <= hash[i] <= '9' || 'a' <= hash[i] <= 'f'
    ensures ValidHash(hash)
  {
  }
}
