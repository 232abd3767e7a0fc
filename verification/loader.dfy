/** Reading the uploaded file: try the legacy Japanese encoding first and,
    if that fails, rewind the upload and read it again as UTF-8.  The two
    decoders are library code and appear here as parameters. */
module Loader {
  import opened Wrappers
  import opened Records

  /** Neither encoding produced a table ("CSV読み込み失敗"). */
  datatype LoadError = ReadFailed

  /** `read_csv(…, encoding='cp932')`, then `seek(0)` and
      `read_csv(…, encoding='utf-8')`.  Because of the rewind the second
      decoder sees the whole upload from its first byte. */
  function Load(upload: seq<bv8>, cp932: seq<bv8> -> Option<Table>, utf8: seq<bv8> -> Option<Table>)
    : (r: Result<Table, LoadError>)
    ensures r.Err? <==> cp932(upload).None? && utf8(upload).None?
    ensures cp932(upload).Some? ==> r == Ok(cp932(upload).value)
    ensures cp932(upload).None? && utf8(upload).Some? ==> r == Ok(utf8(upload).value)
  {
    match cp932(upload)
    case Some(table) => Ok(table)
    case None =>
      match utf8(upload)
      case Some(table) => Ok(table)
      case None => Err(ReadFailed)
  }

  /** An upload the legacy decoder rejects loads exactly as if only the
      UTF-8 decoder had been tried. */
  lemma FallbackIsTransparent(upload: seq<bv8>, cp932: seq<bv8> -> Option<Table>, utf8: seq<bv8> -> Option<Table>)
    requires cp932(upload).None?
    ensures Load(upload, cp932, utf8) == Load(upload, _ => None, utf8)
    ensures utf8(upload).Some? ==> Load(upload, cp932, utf8) == Ok(utf8(upload).value)
  {
  }
}
