/** What the analyser reads from the outside world, given as values: directory listings,
    file contents, and the results of the regular-expression engine and of the XML and
    JSON parsers, which are modelled as oracles. */
module Inputs {
  import opened Wrappers
  import opened Catalog

  /** A file's content as the analyser can read it. `Unreadable`: opening the file fails.
      `Readable(text, utf8)`: `text` is what a read with `errors='ignore'` returns; a strict
      UTF-8 read succeeds, and returns the same text, exactly when `utf8` holds. Line
      endings are already translated to '\n', as Python's text mode does. */
  datatype FileContent = Unreadable | Readable(text: string, utf8: bool)

  datatype File = File(name: string, content: FileContent)

  /** One triple of `os.walk`, without its subdirectory names: a directory path and the
      files directly in it, in listing order. */
  datatype Dir = Dir(path: string, files: seq<File>)

  /** A child element of a Maven `<dependency>` as ElementTree's `find` sees it: absent,
      present with no text (`.text` is None), or present with its text. */
  datatype Child = Absent | NoText | Value(text: string)

  datatype PomDependency = PomDependency(scope: Child, groupId: Child, artifactId: Child, version: Child)

  /** The result of parsing a `pom.xml`: a parse error, or the texts of the elements
      `.//modules/module` (None for an element without text) and the elements
      `.//dependencies/dependency`, both in document order. */
  datatype PomFile = MalformedPom | Pom(modules: seq<Option<string>>, dependencies: seq<PomDependency>)

  /** The result of `json.load` on a `package.json`: a load error, a document that is not
      an object, or an object with or without a "dependencies" member. */
  datatype PackageJson = MalformedJson | NonObjectJson | JsonObject(dependencies: Option<JsonDependencies>)

  /** The "dependencies" member: an object (its key set) or any other JSON value. */
  datatype JsonDependencies = DependencyObject(names: set<string>) | OtherValue

  /** The library calls the analyser makes on file contents. */
  datatype Parsers = Parsers(
    /** `re.findall(Source(r), text, re.IGNORECASE)`: the captures of a one-group pattern,
        the whole matches of a pattern without groups. */
    findallIgnoreCase: (Regex, string) -> seq<string>,
    /** `re.findall(Source(r), text)` */
    findall: (Regex, string) -> seq<string>,
    /** `[m.group(0) for m in re.finditer(Source(r), text)]` */
    matchTexts: (Regex, string) -> seq<string>,
    /** `ET.parse` of a file */
    parsePom: FileContent -> PomFile,
    /** `json.load` of a file's text, read with strict UTF-8 decoding */
    parsePackageJson: string -> PackageJson)

  /** A checked-out working tree: `walk(path)` is the listing `os.walk(path)` yields, and
      `rootPom` is the content of `<repo>/pom.xml`, None when that path does not exist. */
  datatype FileSystem = FileSystem(walk: string -> seq<Dir>, rootPom: Option<FileContent>)
}
