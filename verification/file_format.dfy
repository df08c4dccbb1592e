/** The file-type dispatch shared by `load_dataset` and `save_dataset`: the
    text after the last '.', lower-cased, must be `csv` or `json`. The reads and
    writes themselves are represented by what they would be asked to do. */
module FileFormat {
  import opened Results

  datatype Format = Csv | Json

  /** `path.split(".")[-1]`: the text after the last '.', or the whole path when
      it has no '.'. It holds no '.', it ends the path, and it is either the whole
      path or is preceded by a '.'. */
  function Extension(path: string): (ext: string)
    ensures '.' !in ext
    ensures |ext| <= |path| && ext == path[|path| - |ext|..]
    ensures |ext| < |path| ==> path[|path| - |ext| - 1] == '.'
  {
    if path == [] then []
    else if path[|path| - 1] == '.' then []
    else Extension(path[..|path| - 1]) + [path[|path| - 1]]
  }

  /** The extension is the only suffix without a '.' that is either the whole
      path or comes right after a '.'. */
  lemma {:induction false} ExtensionUnique(path: string, ext: string)
    requires '.' !in ext
    requires |ext| <= |path| && ext == path[|path| - |ext|..]
    requires |ext| < |path| ==> path[|path| - |ext| - 1] == '.'
    ensures Extension(path) == ext
  {
    if path == [] {
      assert ext == [];
    } else {
      var n := |path| - 1;
      if ext == [] {
        assert path[n] == '.';
      } else {
        var m := |ext| - 1;
        var shorter := ext[..m];
        assert ext == shorter + [ext[m]];
        assert ext[m] == path[n];
        assert path[n] != '.' by {
          assert ext[m] in ext;
        }
        assert '.' !in shorter by {
          assert forall c :: c in shorter ==> c in ext;
        }
        assert path[..n][n - m..] == shorter;
        assert m < n ==> path[..n][n - m - 1] == '.';
        ExtensionUnique(path[..n], shorter);
      }
    }
  }

  /** Whatever comes before the last '.', the extension is what follows it. */
  lemma ExtensionAfterLastDot(prefix: string, ext: string)
    requires '.' !in ext
    ensures Extension(prefix + "." + ext) == ext
  {
    var path := prefix + "." + ext;
    assert path[|path| - |ext|..] == ext;
    assert path[|path| - |ext| - 1] == '.';
    ExtensionUnique(path, ext);
  }

  /** A path without any '.' is its own extension. */
  lemma ExtensionNoDot(path: string)
    requires '.' !in path
    ensures Extension(path) == path
  {
    assert path[|path| - |path|..] == path;
    ExtensionUnique(path, path);
  }

  /** Python's `str.lower` on one character, for the ASCII letters. */
  function LowerChar(c: char): char
  {
    if 'A' <= c <= 'Z' then (c as int + 32) as char else c
  }

  /** `str.lower` on a string, character by character; it keeps the length. */
  function Lower(s: string): (r: string)
    ensures |r| == |s|
  {
    seq(|s|, i requires 0 <= i < |s| => LowerChar(s[i]))
  }

  /** After lower-casing no upper-case ASCII letter is left, each one has become
      its lower-case partner, and every other character (the '.' in particular)
      is kept where it was. */
  lemma LowerSpec(s: string)
    ensures forall i :: 0 <= i < |s| ==> !('A' <= Lower(s)[i] <= 'Z')
    ensures forall i :: 0 <= i < |s| && 'A' <= s[i] <= 'Z' ==>
              Lower(s)[i] as int == s[i] as int + ('a' as int - 'A' as int)
    ensures forall i :: 0 <= i < |s| && !('A' <= s[i] <= 'Z') ==> Lower(s)[i] == s[i]
  {
  }

  /** The format named by the lower-cased extension; anything other than `csv`
      or `json` raises `ValueError("Unsupported file type")`. */
  function FileType(path: string): (r: Result<Format>)
    ensures r.Ok? <==> Lower(Extension(path)) in {"csv", "json"}
    ensures r == Ok(Csv) <==> Lower(Extension(path)) == "csv"
    ensures r.Err? ==> r.error == ValueError("Unsupported file type")
  {
    var ext := Lower(Extension(path));
    if ext == "csv" then Ok(Csv)
    else if ext == "json" then Ok(Json)
    else Err(ValueError("Unsupported file type"))
  }

  /** Lower-casing a string one character longer appends the lower-cased character. */
  lemma LowerAppend(s: string, c: char)
    ensures Lower(s + [c]) == Lower(s) + [LowerChar(c)]
  {
  }

  /** Lower-casing twice is lower-casing once. */
  lemma LowerIdempotent(s: string)
    ensures Lower(Lower(s)) == Lower(s)
  {
  }

  /** Lower-casing never turns a character into '.' or a '.' into anything else,
      so it commutes with taking the extension. */
  lemma {:induction false} ExtensionOfLower(path: string)
    ensures Extension(Lower(path)) == Lower(Extension(path))
  {
    if path != [] {
      var n := |path| - 1;
      var low := Lower(path);
      assert low[..n] == Lower(path[..n]);
      assert low[n] == LowerChar(path[n]);
      ExtensionOfLower(path[..n]);
      if path[n] != '.' {
        LowerAppend(Extension(path[..n]), path[n]);
      }
    }
  }

  /** The dispatch ignores letter case: a path and its lower-cased form name
      the same format. */
  lemma FileTypeCaseInsensitive(path: string)
    ensures FileType(Lower(path)) == FileType(path)
  {
    ExtensionOfLower(path);
    LowerIdempotent(Extension(path));
  }

  /** The format depends only on the text after the last '.'. */
  lemma FileTypeByExtension(prefix: string, ext: string)
    requires '.' !in ext
    ensures FileType(prefix + "." + ext) == FileType(ext)
  {
    ExtensionAfterLastDot(prefix, ext);
    ExtensionNoDot(ext);
  }

  /** How the frame is read: `spark.read.csv(path, header=True, inferSchema=True)`
      or `spark.read.json(path, multiLine=True)`. */
  datatype Reader =
    | ReadCsv(header: bool, inferSchema: bool)
    | ReadJson(multiLine: bool)

  /** How the frame is written: `df.write.csv(path, mode="overwrite", header=True)`
      or `df.write.json(path, mode="overwrite")`. */
  datatype Writer =
    | WriteCsv(overwrite: bool, header: bool)
    | WriteJson(overwrite: bool)

  /** `load_dataset`: the read it issues for `path`, or the error it raises. */
  function LoadDataset(path: string): (r: Result<Reader>)
    ensures r.Ok? <==> FileType(path).Ok?
    ensures r.Ok? ==> (r.value.ReadCsv? <==> FileType(path) == Ok(Csv))
    ensures r.Err? ==> r.error == ValueError("Unsupported file type")
  {
    match FileType(path)
    case Ok(Csv) => Ok(ReadCsv(true, true))
    case Ok(Json) => Ok(ReadJson(true))
    case Err(e) => Err(e)
  }

  /** `save_dataset`: the write it issues for `path`, or the error it raises. */
  function SaveDataset(path: string): (r: Result<Writer>)
    ensures r.Ok? <==> FileType(path).Ok?
    ensures r.Ok? ==> (r.value.WriteCsv? <==> FileType(path) == Ok(Csv))
    ensures r.Err? ==> r.error == ValueError("Unsupported file type")
  {
    match FileType(path)
    case Ok(Csv) => Ok(WriteCsv(true, true))
    case Ok(Json) => Ok(WriteJson(true))
    case Err(e) => Err(e)
  }

  /** Loading and saving accept exactly the same paths and pick the same format. */
  lemma LoadSaveAgree(path: string)
    ensures LoadDataset(path).Ok? <==> SaveDataset(path).Ok?
    ensures LoadDataset(path).Ok? ==> (LoadDataset(path).value.ReadCsv? <==> SaveDataset(path).value.WriteCsv?)
  {
  }

  /** Worked paths: case is ignored and only the last extension counts. */
  lemma FileTypeExamples()
    ensures FileType("data.csv") == Ok(Csv)
    ensures FileType("out/Report.JSON") == Ok(Json)
    ensures FileType("archive.csv.gz").Err?
  {
    ExtensionAfterLastDot("data", "csv");
    assert "data" + "." + "csv" == "data.csv";
    assert Lower("csv") == "csv";
    ExtensionAfterLastDot("out/Report", "JSON");
    assert "out/Report" + "." + "JSON" == "out/Report.JSON";
    assert Lower("JSON") == "json";
    ExtensionAfterLastDot("archive.csv", "gz");
    assert "archive.csv" + "." + "gz" == "archive.csv.gz";
    assert Lower("gz") == "gz";
  }

  /** A path without any '.' is classified by its whole text: a file named `csv`
      is read as CSV, one named `data` is refused. */
  lemma FileTypeWithoutDot()
    ensures FileType("csv") == Ok(Csv)
    ensures FileType("data").Err?
  {
    assert '.' !in "csv" && '.' !in "data";
    ExtensionNoDot("csv");
    ExtensionNoDot("data");
    assert Lower("csv") == "csv";
    assert Lower("data") == "data";
  }
}
