/** The exceptions of the generator that abort a build, as values. */
module Failures {
  import opened Paths

  datatype Error =
    | FileNotFound(path: Path)      // open() on a document that does not exist
    | DuplicateFileName             // the front matter carries its own `file_name`: ParsedFile(file_name=..., **dict) raises TypeError
    | Invalid(fields: seq<string>)  // the metadata record fails validation, naming each offending field
    | EmptyName(link: string)       // Path.with_suffix on a path that has no name raises ValueError
    | Dangling(path: Path)          // a local link whose markdown file does not exist
}
