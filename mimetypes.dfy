/**
 * The mimetype the storage layer reports for a file: guessed from the
 * extension of its key (`mimetypes.guess_type`), "application/octet-stream"
 * when the extension is unknown. Only a part of the standard table is given.
 */
module Mimetypes {
  import opened Naming

  const OctetStream: string := "application/octet-stream"

  /** Extension to mimetype, a part of the standard table. */
  const KnownTypes: map<string, string> := map[
    ".pdf" := "application/pdf",
    ".jpg" := "image/jpeg",
    ".jpe" := "image/jpeg",
    ".jpeg" := "image/jpeg",
    ".png" := "image/png",
    ".gif" := "image/gif",
    ".tif" := "image/tiff",
    ".tiff" := "image/tiff",
    ".bmp" := "image/bmp",
    ".svg" := "image/svg+xml",
    ".txt" := "text/plain",
    ".html" := "text/html",
    ".csv" := "text/csv",
    ".json" := "application/json",
    ".zip" := "application/zip"
  ]

  /** ASCII lower case, the only case folding an extension in the table needs. */
  function LowerAscii(s: string): (r: string)
    ensures |r| == |s|
  {
    if s == [] then []
    else
      var c := s[0];
      [if 'A' <= c <= 'Z' then (c as int + 32) as char else c] + LowerAscii(s[1..])
  }

  /** The type of a key: its extension looked up as written, then in lower case. */
  function GuessType(key: string): (m: string)
  {
    var ext := SplitExt(key).ext;
    if ext in KnownTypes then KnownTypes[ext]
    else if LowerAscii(ext) in KnownTypes then KnownTypes[LowerAscii(ext)]
    else OctetStream
  }
}
