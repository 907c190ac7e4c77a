/**
 * Loading one API description: choose the serialization format from the
 * file name's extension, run the matching parser (or JSON then YAML when
 * the extension says nothing), and tag every failure with the file's path.
 *
 * Reading the file and the two parsers are outside the model: they are
 * passed in as functions that either succeed or fail with the library's
 * error text.
 */
module Loader {
  import opened Wrappers

  datatype Format = Json | Yaml

  /** A parser failure, tagged with the format whose parser failed. */
  datatype ParseError = InvalidYaml(detail: string) | InvalidJson(detail: string)

  /** A load failure, tagged with the path of the file being loaded. */
  datatype LoadError =
    | Io(path: string, detail: string)
    | Parse(path: string, error: ParseError)

  function ParseErrorText(e: ParseError): (s: string)
    ensures e.InvalidJson? ==> "invalid JSON: " <= s
    ensures e.InvalidYaml? ==> "invalid YAML: " <= s
    ensures |e.detail| < |s| && s[|s| - |e.detail|..] == e.detail
  {
    match e
    case InvalidYaml(detail) => "invalid YAML: " + detail
    case InvalidJson(detail) => "invalid JSON: " + detail
  }

  function LoadErrorText(e: LoadError): (s: string)
    ensures e.Io? ==> "failed to read '" + e.path + "'" <= s
    ensures e.Parse? ==> "failed to parse '" + e.path + "'" <= s
    ensures e.Parse? ==>
      |ParseErrorText(e.error)| < |s| && s[|s| - |ParseErrorText(e.error)|..] == ParseErrorText(e.error)
  {
    match e
    case Io(path, detail) => "failed to read '" + path + "': " + detail
    case Parse(path, error) => "failed to parse '" + path + "': " + ParseErrorText(error)
  }

  // ---------------------------------------------------------------------
  // File name and extension, as the standard library's `Path` reads them
  // ---------------------------------------------------------------------

  /** The text after the last `sep` in `s` (all of `s` when it has none). */
  function TextAfterLast(s: string, sep: char): (t: string)
    ensures |t| <= |s| && t == s[|s| - |t|..]
    ensures sep !in t
    ensures |t| < |s| ==> s[|s| - |t| - 1] == sep
  {
    if s == [] || s[|s| - 1] == sep then []
    else TextAfterLast(s[..|s| - 1], sep) + [s[|s| - 1]]
  }

  /**
   * The last component of a `/`-separated path: trailing separators and `.`
   * components are skipped, and a path ending in `..`, or made only of
   * separators and `.`, has no file name.
   */
  function FileName(path: string): (name: Option<string>)
    ensures name.Some? ==> '/' !in name.value && name.value != [] && name.value != "." && name.value != ".."
    decreases |path|
  {
    if path == [] then None
    else if path[|path| - 1] == '/' then FileName(path[..|path| - 1])
    else
      var segment := TextAfterLast(path, '/');
      var rest := path[..|path| - |segment|];
      if segment == "." then FileName(rest)
      else if segment == ".." then None
      else Some(segment)
  }

  /**
   * The extension of a file name: the text after its last dot, provided
   * the dot is not the name's first character; `..` has none.
   */
  function Extension(name: string): (ext: Option<string>)
    ensures ext.Some? ==> '.' !in ext.value && |ext.value| + 1 < |name|
  {
    var after := TextAfterLast(name, '.');
    if name == ".." || |after| == |name| || |after| + 1 == |name| then None
    else Some(after)
  }

  /** `detect_format`: `json` selects JSON, `yaml` or `yml` YAML, anything else nothing. */
  function DetectFormat(path: string): (f: Option<Format>)
    ensures f == Some(Json) ==> FileName(path).Some? && Extension(FileName(path).value) == Some("json")
    ensures f == Some(Yaml) ==>
      FileName(path).Some? && Extension(FileName(path).value) in {Some("yaml"), Some("yml")}
  {
    match FileName(path)
    case None => None
    case Some(name) =>
      match Extension(name)
      case Some(ext) =>
        if ext == "json" then Some(Json)
        else if ext == "yaml" || ext == "yml" then Some(Yaml)
        else None
      case None => None
  }

  lemma {:induction false} TextAfterLastOfPlain(s: string, sep: char)
    requires sep !in s
    ensures TextAfterLast(s, sep) == s
  {
    if s != [] {
      TextAfterLastOfPlain(s[..|s| - 1], sep);
    }
  }

  lemma {:induction false} TextAfterLastSeparator(p: string, sep: char, t: string)
    requires sep !in t
    ensures TextAfterLast(p + [sep] + t, sep) == t
  {
    if t != [] {
      var s := p + [sep] + t;
      assert s[..|s| - 1] == p + [sep] + t[..|t| - 1];
      TextAfterLastSeparator(p, sep, t[..|t| - 1]);
    } else {
      assert (p + [sep] + t)[|p + [sep] + t| - 1] == sep;
    }
  }

  /** A plain file name, with no separator and not `.` or `..`, is its own file name. */
  lemma PlainFileName(name: string)
    requires name != [] && '/' !in name && name != "." && name != ".."
    ensures FileName(name) == Some(name)
  {
    TextAfterLastOfPlain(name, '/');
  }

  /** The directories in front of a file name do not change the format chosen. */
  lemma DirectoryIsIgnored(dir: string, name: string)
    requires name != [] && '/' !in name && name != "." && name != ".."
    ensures DetectFormat(dir + "/" + name) == DetectFormat(name)
  {
    var path := dir + "/" + name;
    assert path == dir + ['/'] + name;
    TextAfterLastSeparator(dir, '/', name);
    assert path[|path| - 1] == name[|name| - 1];
    PlainFileName(name);
  }

  /**
   * Format detection on `<base>.<ext>`: the choice depends on the text
   * after the last dot alone, compared case-sensitively.
   */
  lemma DetectByExtension(base: string, ext: string)
    requires base != [] && '/' !in base && '/' !in ext && '.' !in ext
    requires base + "." + ext != ".."
    ensures DetectFormat(base + "." + ext) ==
      if ext == "json" then Some(Json)
      else if ext == "yaml" || ext == "yml" then Some(Yaml)
      else None
  {
    var name := base + "." + ext;
    assert name == base + ['.'] + ext;
    assert |name| >= 2;
    PlainFileName(name);
    TextAfterLastSeparator(base, '.', ext);
  }

  /** A file name with no dot, such as `spec`, selects no format. */
  lemma NoExtensionNoFormat(name: string)
    requires name != [] && '/' !in name && '.' !in name
    ensures DetectFormat(name) == None
  {
    PlainFileName(name);
    TextAfterLastOfPlain(name, '.');
  }

  // ---------------------------------------------------------------------
  // Parser dispatch
  // ---------------------------------------------------------------------

  /** `parse_content`: run the parser of the given format and tag its failure. */
  function ParseContent<D>(content: string, format: Format,
                           json: string -> Result<D, string>,
                           yaml: string -> Result<D, string>): (r: Result<D, ParseError>)
  {
    match format
    case Json =>
      (match json(content)
       case Ok(doc) => Ok(doc)
       case Err(e) => Err(InvalidJson(e)))
    case Yaml =>
      (match yaml(content)
       case Ok(doc) => Ok(doc)
       case Err(e) => Err(InvalidYaml(e)))
  }

  /** `parse_unknown_content`: JSON first, YAML only when JSON fails. */
  function ParseUnknownContent<D>(content: string,
                                  json: string -> Result<D, string>,
                                  yaml: string -> Result<D, string>): (r: Result<D, ParseError>)
  {
    match ParseContent(content, Json, json, yaml)
    case Ok(doc) => Ok(doc)
    case Err(_) => ParseContent(content, Yaml, json, yaml)
  }

  /**
   * `parse_content_auto`: with a detected format only that format's parser
   * decides; with none, the content loads iff either parser accepts it, JSON
   * wins when both would, and when both fail the YAML error is reported.
   */
  function ParseContentAuto<D>(content: string, format: Option<Format>,
                               json: string -> Result<D, string>,
                               yaml: string -> Result<D, string>): (r: Result<D, ParseError>)
    ensures format == Some(Json) ==>
      (r.Ok? <==> json(content).Ok?) &&
      (r.Ok? ==> r.value == json(content).value) &&
      (r.Err? ==> r.error == InvalidJson(json(content).error))
    ensures format == Some(Yaml) ==>
      (r.Ok? <==> yaml(content).Ok?) &&
      (r.Ok? ==> r.value == yaml(content).value) &&
      (r.Err? ==> r.error == InvalidYaml(yaml(content).error))
    ensures format == None ==>
      (r.Ok? <==> json(content).Ok? || yaml(content).Ok?) &&
      (json(content).Ok? ==> r == Ok(json(content).value)) &&
      (json(content).Err? && yaml(content).Ok? ==> r == Ok(yaml(content).value)) &&
      (r.Err? ==> r.error == InvalidYaml(yaml(content).error))
  {
    match format
    case Some(f) => ParseContent(content, f, json, yaml)
    case None => ParseUnknownContent(content, json, yaml)
  }

  /** With a detected format the other format's parser is never consulted. */
  lemma DetectedFormatHasNoFallback<D>(content: string, f: Format,
                                       json: string -> Result<D, string>, json': string -> Result<D, string>,
                                       yaml: string -> Result<D, string>, yaml': string -> Result<D, string>)
    ensures f == Json ==> ParseContentAuto(content, Some(f), json, yaml) == ParseContentAuto(content, Some(f), json, yaml')
    ensures f == Yaml ==> ParseContentAuto(content, Some(f), json, yaml) == ParseContentAuto(content, Some(f), json', yaml)
  {
  }

  /**
   * `load_file`: a read failure is an `Io` error and a parse failure a
   * `Parse` error, both carrying the path; otherwise the parsed document.
   */
  function LoadFile<D>(path: string,
                       read: string -> Result<string, string>,
                       json: string -> Result<D, string>,
                       yaml: string -> Result<D, string>): (r: Result<D, LoadError>)
    ensures read(path).Err? ==> r == Err(Io(path, read(path).error))
    ensures read(path).Ok? ==>
      var parsed := ParseContentAuto(read(path).value, DetectFormat(path), json, yaml);
      (r.Ok? <==> parsed.Ok?) &&
      (r.Ok? ==> r.value == parsed.value) &&
      (r.Err? ==> r.error == Parse(path, parsed.error))
  {
    match read(path)
    case Err(e) => Err(Io(path, e))
    case Ok(content) =>
      match ParseContentAuto(content, DetectFormat(path), json, yaml)
      case Ok(doc) => Ok(doc)
      case Err(e) => Err(Parse(path, e))
  }
}
