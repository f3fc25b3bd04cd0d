/** The upload filter of app.py: which file names are accepted as workbooks. */
module Upload {
  import opened Wrappers
  import opened Strings

  /** `ALLOWED_EXTENSIONS`. */
  const AllowedExtensions: set<string> := {"xlsx", "xls"}

  /** The text after the last dot, `filename.rsplit('.', 1)[1]`, when there
      is a dot. */
  function Extension(filename: string): (r: Option<string>)
    ensures r.None? <==> '.' !in filename
    ensures r.Some? ==> '.' !in r.value && |r.value| < |filename|
                        && filename[|filename| - |r.value| - 1] == '.'
                        && filename[|filename| - |r.value|..] == r.value
  {
    match LastIndexOf(filename, '.')
    case None => None
    case Some(k) =>
      var ext := filename[k + 1..];
      assert forall j :: 0 <= j < |ext| ==> ext[j] == filename[k + 1 + j];
      Some(ext)
  }

  /** `allowed_file`: the name has a dot and the text after the last dot,
      lower-cased, is an allowed extension. */
  function AllowedFile(filename: string): (r: bool)
    ensures r ==> '.' in filename
    ensures r <==> Extension(filename).Some? && AsciiLower(Extension(filename).value) in AllowedExtensions
  {
    match Extension(filename)
    case None => false
    case Some(ext) => AsciiLower(ext) in AllowedExtensions
  }

  /** The extension of `stem.ext` is `ext` whenever `ext` has no dot. */
  lemma ExtensionOf(stem: string, ext: string)
    requires '.' !in ext
    ensures Extension(stem + "." + ext) == Some(ext)
  {
    var f := stem + "." + ext;
    var k := LastIndexOf(f, '.').value;
    assert f[|stem|] == '.';
    assert forall j :: |stem| < j < |f| ==> f[j] == ext[j - |stem| - 1];
    assert k == |stem|;
    assert f[k + 1..] == ext;
  }

  /** A name is accepted exactly when what follows its last dot, lower-cased,
      is "xlsx" or "xls", whatever comes before. */
  lemma AllowedFileIff(stem: string, ext: string)
    requires '.' !in ext
    ensures AllowedFile(stem + "." + ext) <==> AsciiLower(ext) == "xlsx" || AsciiLower(ext) == "xls"
  {
    ExtensionOf(stem, ext);
  }

  /** Upper-case extensions are accepted; a bare extension without a dot
      and a further extension after ".xlsx" are not. */
  lemma AllowedFileExamples()
    ensures AllowedFile("a.XLS")
    ensures !AllowedFile("xlsx")
    ensures !AllowedFile("a.xlsx.exe")
  {
    ExtensionOf("a", "XLS");
    assert AsciiLower("XLS") == "xls";
    assert "a.xlsx.exe" == "a.xlsx" + "." + "exe";
    ExtensionOf("a.xlsx", "exe");
    assert AsciiLower("exe") == "exe";
    assert '.' !in "xlsx";
  }
}
