/**
 * The names and paths of src/native/files.ts: photo and report file names,
 * the relative path a saved file is stored under, and the data URL a file
 * is read back as. The filesystem calls themselves are not modelled; the
 * contents they read are a parameter.
 */
module Files {
  import opened Wrappers

  /** The kind of event a photo is taken for. */
  datatype Tipo = Entrada | Salida | Incidencia

  function TipoName(t: Tipo): string {
    match t
    case Entrada => "entrada"
    case Salida => "salida"
    case Incidencia => "incidencia"
  }

  /** `BASE_PATH`: the folder, under the shared storage root, every file is saved in. */
  const BASE_PATH: string := "Download/RegistroLaboral"

  /** `saveDataUrl`: the relative path returned after writing `fileName`, kept in the day records. */
  function SaveDataUrl(fileName: string): (path: string)
    ensures |path| == |BASE_PATH| + 1 + |fileName|
    ensures path[..|BASE_PATH|] == BASE_PATH && path[|BASE_PATH|] == '/'
    ensures path[|BASE_PATH| + 1..] == fileName
  {
    BASE_PATH + "/" + fileName
  }

  /** `saveDataUrlSafe`: replaces an existing file, and returns the same relative path as `saveDataUrl`. */
  function SaveDataUrlSafe(fileName: string): (path: string)
    ensures path == SaveDataUrl(fileName)
  {
    var fullPath := BASE_PATH + "/" + fileName;
    fullPath
  }

  /** `path.split('.').pop()`: the text after the last '.', or the whole path when it has none. */
  function Extension(path: string): (ext: string)
    ensures '.' !in ext
    ensures |ext| <= |path| && path[|path| - |ext|..] == ext
    ensures '.' in path ==> |ext| < |path| && path[|path| - |ext| - 1] == '.'
    ensures '.' !in path ==> ext == path
  {
    if path == [] then []
    else if path[|path| - 1] == '.' then []
    else
      var init := path[..|path| - 1];
      assert path == init + [path[|path| - 1]];
      assert '.' in path ==> '.' in init;
      Extension(init) + [path[|path| - 1]]
  }

  /** The extension is decided by the text after the last '.' alone. */
  lemma {:induction false} ExtensionAfterLastDot(front: string, ext: string)
    requires '.' !in ext
    ensures Extension(front + "." + ext) == ext
  {
    var p := front + "." + ext;
    if ext != [] {
      var init := ext[..|ext| - 1];
      assert p[..|p| - 1] == front + "." + init;
      ExtensionAfterLastDot(front, init);
      assert ext == init + [ext[|ext| - 1]];
    }
  }

  /** Lower-casing leaves a string without capital letters unchanged. */
  lemma LowerAsciiIdentity(s: string)
    requires forall i :: 0 <= i < |s| ==> !('A' <= s[i] <= 'Z')
    ensures LowerAscii(s) == s
  {
  }

  function LowerChar(c: char): char {
    if 'A' <= c <= 'Z' then (c as int + 32) as char else c
  }

  /** `toLowerCase()` on ASCII letters. */
  function LowerAscii(s: string): (r: string)
    ensures |r| == |s| && forall i :: 0 <= i < |s| ==> r[i] == LowerChar(s[i])
  {
    seq(|s|, i requires 0 <= i < |s| => LowerChar(s[i]))
  }

  /** The MIME type of a lower-cased extension: the conditional chain of `readAsDataUrl`. */
  function MimeOfExtension(ext: string): (mime: string)
    ensures ext in {"jpg", "jpeg"} <==> mime == "image/jpeg"
    ensures ext == "png" <==> mime == "image/png"
    ensures ext == "pdf" <==> mime == "application/pdf"
    ensures ext !in {"jpg", "jpeg", "png", "pdf"} <==> mime == "application/octet-stream"
    ensures ';' !in mime
  {
    if ext == "jpg" || ext == "jpeg" then "image/jpeg"
    else if ext == "png" then "image/png"
    else if ext == "pdf" then "application/pdf"
    else "application/octet-stream"
  }

  /** The MIME type `readAsDataUrl` announces for `path`, chosen by its lower-cased extension. */
  function MimeOf(path: string): string {
    MimeOfExtension(LowerAscii(Extension(path)))
  }

  /** `readAsDataUrl`: the base64 `data` of the file at `path`, as a data URL of its MIME type. */
  function ReadAsDataUrl(path: string, data: string): (url: string)
    ensures DataUrlParts(url) == Some((MimeOf(path), data))
  {
    var m := MimeOfExtension(LowerAscii(Extension(path)));
    DataUrlRoundTrip(m, data);
    "data:" + m + ";base64," + data
  }

  /** The position of the first `c` in `s`, or `|s|` when there is none. */
  function FirstIndex(s: string, c: char): (i: nat)
    ensures i <= |s| && c !in s[..i] && (i < |s| ==> s[i] == c)
  {
    if s == [] || s[0] == c then 0
    else
      assert s[..1 + FirstIndex(s[1..], c)] == [s[0]] + s[1..][..FirstIndex(s[1..], c)];
      1 + FirstIndex(s[1..], c)
  }

  /** How a data URL is read: the MIME type up to the first ';', and the payload after `;base64,`. */
  function DataUrlParts(url: string): Option<(string, string)> {
    if |url| < 5 || url[..5] != "data:" then None
    else
      var rest := url[5..];
      var i := FirstIndex(rest, ';');
      if i + 8 <= |rest| && rest[i..i + 8] == ";base64," then Some((rest[..i], rest[i + 8..])) else None
  }

  /** A data URL built from a MIME type without ';' reads back as that type and payload. */
  lemma DataUrlRoundTrip(mime: string, data: string)
    requires ';' !in mime
    ensures DataUrlParts("data:" + mime + ";base64," + data) == Some((mime, data))
  {
    var url := "data:" + mime + ";base64," + data;
    var rest := mime + ";base64," + data;
    assert url[..5] == "data:" && url[5..] == rest;
    assert forall j :: 0 <= j < |mime| ==> rest[j] == mime[j];
    assert rest[|mime|] == ';';
    assert FirstIndex(rest, ';') == |mime|;
    assert rest[..|mime|] == mime;
    assert rest[|mime|..|mime| + 8] == ";base64,";
    assert rest[|mime| + 8..] == data;
  }

  /** Every ':' and '.' of `s` replaced by '-' (`replace(/[:.]/g, '-')`). */
  function Dashed(s: string): (r: string)
    ensures |r| == |s|
    ensures forall i :: 0 <= i < |s| ==> r[i] == if s[i] == ':' || s[i] == '.' then '-' else s[i]
  {
    seq(|s|, i requires 0 <= i < |s| => if s[i] == ':' || s[i] == '.' then '-' else s[i])
  }

  /**
   * `buildImageName(tipo, fecha)`, `iso` being `fecha.toISOString()`: a name
   * with no ':' and a single '.', the one before the `jpg` extension.
   */
  function BuildImageName(tipo: Tipo, iso: string): (name: string)
    ensures |name| == |iso| + |TipoName(tipo)| + 5
    ensures ':' !in name
    ensures forall i :: 0 <= i < |name| - 4 ==> name[i] != '.'
    ensures name[|iso|..] == "_" + TipoName(tipo) + ".jpg"
    ensures forall i :: 0 <= i < |iso| ==> (name[i] == iso[i] || (name[i] == '-' && iso[i] in ":."))
  {
    Dashed(iso) + "_" + TipoName(tipo) + ".jpg"
  }

  /** `buildPdfName(periodo)`. */
  function BuildPdfName(periodo: string): (name: string)
    ensures |name| == |periodo| + 12
    ensures name[..8] == "informe_" && name[8..8 + |periodo|] == periodo && name[8 + |periodo|..] == ".pdf"
  {
    "informe_" + periodo + ".pdf"
  }

  /** A saved file keeps its extension, so it is read back with the MIME type its name gives. */
  lemma {:induction false} SavedPathMime(fileName: string)
    requires '.' in fileName
    ensures MimeOf(SaveDataUrl(fileName)) == MimeOf(fileName)
  {
    var path := SaveDataUrl(fileName);
    var e := Extension(fileName);
    var i := |fileName| - |e| - 1;
    assert fileName == fileName[..i] + "." + e;
    assert path == (BASE_PATH + "/" + fileName[..i]) + "." + e;
    ExtensionAfterLastDot(BASE_PATH + "/" + fileName[..i], e);
  }

  /** A name ending in ".jpg" or ".pdf" has that MIME type, and so has the path it is saved under. */
  lemma {:induction false} NamedMime(front: string, ext: string)
    requires ext in {"jpg", "pdf"}
    ensures MimeOf(front + "." + ext) == MimeOf(SaveDataUrl(front + "." + ext))
    ensures MimeOf(front + "." + ext) == if ext == "jpg" then "image/jpeg" else "application/pdf"
  {
    var name := front + "." + ext;
    ExtensionAfterLastDot(front, ext);
    LowerAsciiIdentity(ext);
    assert name[|front|] == '.';
    SavedPathMime(name);
  }

  /** A photo saved under the name `buildImageName` gives is read back as JPEG data. */
  lemma ImageReadsAsJpeg(tipo: Tipo, iso: string)
    ensures MimeOf(BuildImageName(tipo, iso)) == "image/jpeg"
    ensures MimeOf(SaveDataUrl(BuildImageName(tipo, iso))) == "image/jpeg"
  {
    var front := Dashed(iso) + "_" + TipoName(tipo);
    assert BuildImageName(tipo, iso) == front + "." + "jpg";
    NamedMime(front, "jpg");
  }

  /** A report saved under the name `buildPdfName` gives is read back as PDF data, whatever the period. */
  lemma ReportReadsAsPdf(periodo: string)
    ensures MimeOf(BuildPdfName(periodo)) == "application/pdf"
    ensures MimeOf(SaveDataUrl(BuildPdfName(periodo))) == "application/pdf"
  {
    assert BuildPdfName(periodo) == ("informe_" + periodo) + "." + "pdf";
    NamedMime("informe_" + periodo, "pdf");
  }
}
