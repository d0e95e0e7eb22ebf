/** `GherkinGenerator`: the name and location of the saved feature file. */
module GherkinGenerator {
  import opened Wrappers
  import opened PyText

  /** `config.OUTPUT_DIR`. */
  const OutputDir := "generated_features"

  predicate IsSlash(c: char) {
    c == '/'
  }

  /** The netloc with every "." turned into "_". */
  function DomainPart(netloc: string): (r: string)
    ensures |r| == |netloc|
    ensures '.' !in r
    ensures forall k :: 0 <= k < |netloc| && netloc[k] != '.' ==> r[k] == netloc[k]
    ensures forall k :: 0 <= k < |netloc| && netloc[k] == '.' ==> r[k] == '_'
    ensures forall c :: c != '_' && c in r ==> c in netloc
  {
    var r := ReplaceChar(netloc, '.', '_');
    assert forall k :: 0 <= k < |r| ==> r[k] != '.';
    assert forall c :: c != '_' && c in r ==> c in netloc by {
      forall c | c != '_' && c in r ensures c in netloc {
        var k :| 0 <= k < |r| && r[k] == c;
        assert netloc[k] == c;
      }
    }
    r
  }

  /** The URL path without its leading and trailing slashes, inner slashes
      turned into "_", or "home" when nothing is left. */
  function PathPart(path: string): (r: string)
    ensures r != ""
    ensures '/' !in r
    ensures Trim(path, IsSlash) == "" ==> r == "home"
    ensures Trim(path, IsSlash) != "" ==> |r| == |Trim(path, IsSlash)|
    ensures Trim(path, IsSlash) != "" ==>
      forall k :: 0 <= k < |r| ==> r[k] == if Trim(path, IsSlash)[k] == '/' then '_' else Trim(path, IsSlash)[k]
  {
    var p := ReplaceChar(Trim(path, IsSlash), '/', '_');
    assert forall k :: 0 <= k < |p| ==> p[k] != '/';
    if p == "" then "home" else p
  }

  const Separator := "__"
  const Extension := ".feature"

  /** The parts of a filename laid end to end, each at its own place. */
  function Assemble(domain: string, pathPart: string, timestamp: string): (r: string)
    ensures domain + Separator <= r
    ensures |r| == |domain| + |Separator| + |pathPart| + |Separator| + |timestamp| + |Extension|
    ensures r[|r| - |Extension|..] == Extension
    ensures r[|r| - |Extension| - |timestamp| - |Separator|..|r| - |Extension|] == Separator + timestamp
    ensures r[|domain| + |Separator|..|r| - |Extension| - |timestamp| - |Separator|] == pathPart
    ensures '/' !in domain && '/' !in pathPart && '/' !in timestamp ==> '/' !in r
  {
    domain + Separator + pathPart + Separator + timestamp + Extension
  }

  /** `_sanitize_filename`, with the URL's netloc and path and the formatted
      clock reading as inputs. */
  function SanitizeFilename(netloc: string, path: string, timestamp: string): (r: string)
    ensures DomainPart(netloc) + Separator <= r
    ensures |r| == |netloc| + |Separator| + |PathPart(path)| + |Separator| + |timestamp| + |Extension|
    ensures r[|r| - |Extension|..] == Extension
    ensures r[|r| - |Extension| - |timestamp| - |Separator|..|r| - |Extension|] == Separator + timestamp
    ensures r[|netloc| + |Separator|..|r| - |Extension| - |timestamp| - |Separator|] == PathPart(path)
    ensures '/' !in netloc && '/' !in timestamp ==> '/' !in r
  {
    var domain := DomainPart(netloc);
    assert '/' !in netloc ==> '/' !in domain;
    Assemble(domain, PathPart(path), timestamp)
  }

  /** A path of slashes only, the empty path included, becomes "home". */
  lemma OnlySlashesIsHome(path: string)
    requires forall k :: 0 <= k < |path| ==> path[k] == '/'
    ensures PathPart(path) == "home"
  {
    TrimIs(path, IsSlash, 0, 0);
  }

  /** Without slashes at its ends the path keeps its length, and only its
      slashes change. */
  lemma InnerPathKept(path: string)
    requires |path| > 0 && path[0] != '/' && path[|path| - 1] != '/'
    ensures PathPart(path) == ReplaceChar(path, '/', '_')
  {
    TrimIs(path, IsSlash, 0, |path|);
    assert path[0..|path|] == path;
  }

  /** `os.path.join(a, b)` on a POSIX system, for two path pieces. */
  function PathJoin(a: string, b: string): (r: string)
    ensures |b| > 0 && b[0] == '/' ==> r == b
    ensures !(|b| > 0 && b[0] == '/') ==> a <= r && |b| <= |r| && r[|r| - |b|..] == b
  {
    if |b| > 0 && b[0] == '/' then b
    else if a == "" || a[|a| - 1] == '/' then a + b
    else a + "/" + b
  }

  /** What the file system does when the generator creates its directory and
      writes the file. */
  datatype FileSystem = FileSystem(makeDirsError: Option<string>, writeError: Option<string>)

  /** `save_feature_file`: the path written to, or the error raised. Creating
      the output directory happens in the constructor, outside the `try`. */
  function SaveFeatureFile(fs: FileSystem, netloc: string, path: string, timestamp: string): (r: Result<string, string>)
    ensures r.Success? <==> fs.makeDirsError.None? && fs.writeError.None?
    ensures r.Success? && '/' !in netloc ==>
      r.value == OutputDir + "/" + SanitizeFilename(netloc, path, timestamp)
    ensures fs.makeDirsError.None? && fs.writeError.Some? ==>
      r == Failure("Failed to save feature file: " + fs.writeError.value)
  {
    match fs.makeDirsError
    case Some(e) => Failure(e)
    case None =>
      var filePath := PathJoin(OutputDir, SanitizeFilename(netloc, path, timestamp));
      match fs.writeError
      case Some(e) => Failure("Failed to save feature file: " + e)
      case None => Success(filePath)
  }
}
