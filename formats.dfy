/** The output formats a diff can be rendered in (the three cases of `formatDiff`). */
module Formats {
  import opened Strings

  datatype Format = Json | Markdown | Text

  function Name(f: Format): string {
    match f
    case Json => "json"
    case Markdown => "markdown"
    case Text => "text"
  }

  /** The names of the supported formats, in the order they are listed to the user. */
  const FormatNames: seq<string> := ["json", "markdown", "text"]

  /** The format a name selects: exactly the supported names select one, and the one
      they select is named by them. */
  function FromName(s: string): (r: Option<Format>)
    ensures r.Some? ==> Name(r.value) == s
    ensures r.Some? <==> s in FormatNames
  {
    if s == "json" then Some(Json)
    else if s == "markdown" then Some(Markdown)
    else if s == "text" then Some(Text)
    else None
  }

  /** Every format is selected by its own name, and no name contains the `:` that
      separates a format from a key. */
  lemma NameSelects(f: Format)
    ensures FromName(Name(f)) == Some(f)
    ensures Name(f) in FormatNames && ':' !in Name(f)
  {
  }
}
