/** The `--output-github` option value `format:key`: which rendered format to write to
    the GitHub Actions output, and under which output key. */
module OutputParser {
  import opened Strings
  import opened Formats

  /** The option value arrives untyped: a string, or any other JavaScript value. */
  datatype Input = Str(s: string) | NonString

  datatype ParsedOutput = ParsedOutput(format: Format, key: string)

  /** One error per check, in the order the checks run. */
  datatype ParseError =
    | NotAString
    | MissingSeparator
    | InvalidFormat(format: string)
    | EmptyKey

  datatype Result = Ok(value: ParsedOutput) | Err(error: ParseError)

  const Param: string := "--output-github"

  const InvalidFormatPrefix: string := "Invalid format for " + Param + ": "

  /** The text of the error thrown for each failed check. The invalid-format message
      quotes the offending format text; every other message opens with the parameter's
      name. */
  function Message(e: ParseError): (r: string)
    ensures e.InvalidFormat? ==> StartsWith(r, InvalidFormatPrefix + e.format)
    ensures !e.InvalidFormat? ==> StartsWith(r, Param + " ")
  {
    match e
    case NotAString => AboutParam("must be a string in the form 'format:key'")
    case MissingSeparator => AboutParam("must be in the form 'format:key'")
    case InvalidFormat(f) => InvalidFormatPrefix + f + ". Supported formats: " + Join(FormatNames, ",")
    case EmptyKey => AboutParam("key must not be empty")
  }

  /** A message about the parameter: its name, a space and what is wrong. */
  function AboutParam(detail: string): (r: string)
    ensures StartsWith(r, Param + " ")
  {
    var r := Param + " " + detail;
    assert r[..|Param| + 1] == Param + " ";
    r
  }

  /** Validates a `format:key` value. Only the first two `:`-separated pieces are
      looked at, so anything after a second `:` is ignored. */
  function ParseOutput(value: Input): (r: Result)
    ensures r == Err(NotAString) <==> value.NonString?
    ensures r == Err(MissingSeparator) <==> value.Str? && ':' !in value.s
  {
    match value
    case NonString => Err(NotAString)
    case Str(s) =>
      var parts := SplitLimit(s, ':', 2);
      if |parts| != 2 then Err(MissingSeparator)
      else
        var fmt, key := parts[0], parts[1];
        match FromName(fmt)
        case None => Err(InvalidFormat(fmt))
        case Some(f) => if key == "" then Err(EmptyKey) else Ok(ParsedOutput(f, key))
  }

  /** What each outcome says about the input. With `i` the position of the first `:`,
      the format is `s[..i]` and the key is the field after it, ending at the next `:`
      or at the end of `s`. */
  lemma ParseOutputSound(value: Input)
    ensures var r := ParseOutput(value);
      r.Ok? ==>
        && value.Str? && ':' in value.s
        && var i := IndexOf(value.s, ':').value;
        && value.s[..i] == Name(r.value.format)
        && FieldAt(value.s, i + 1, r.value.key, ':')
        && r.value.key != ""
    ensures var r := ParseOutput(value);
      r.Err? && r.error.InvalidFormat? ==>
        && value.Str? && ':' in value.s
        && var i := IndexOf(value.s, ':').value;
        && r.error.format == value.s[..i]
        && r.error.format !in FormatNames
    ensures var r := ParseOutput(value);
      r == Err(EmptyKey) ==>
        && value.Str? && ':' in value.s
        && var i := IndexOf(value.s, ':').value;
        && value.s[..i] in FormatNames
        && FieldAt(value.s, i + 1, "", ':')
  {
    if value.Str? && ':' in value.s {
      var s := value.s;
      var all := Split(s, ':');
      SplitHead(s, ':');
      var i := |all[0]|;
      IndexOfFirst(s, ':', i);
      assert all[0] == s[..i];
      var rest := s[i + 1..];
      SplitHead(rest, ':');
      assert all[1] == Split(rest, ':')[0];
      FieldShift(s, i + 1, all[1], ':');
    }
  }

  /** Conversely, the fields of the input decide the outcome: an unsupported format is
      reported whatever the key, then an empty key, and otherwise the value parses. */
  lemma ParseOutputComplete(s: string, fmt: string, key: string)
    requires FieldAt(s, 0, fmt, ':') && |fmt| < |s|
    requires FieldAt(s, |fmt| + 1, key, ':')
    ensures ParseOutput(Str(s)) ==
      if fmt !in FormatNames then Err(InvalidFormat(fmt))
      else if key == "" then Err(EmptyKey)
      else Ok(ParsedOutput(FromName(fmt).value, key))
  {
    var all := Split(s, ':');
    SplitHead(s, ':');
    FieldUnique(s, 0, fmt, all[0], ':');
    var rest := s[|fmt| + 1..];
    SplitHead(rest, ':');
    FieldShift(s, |fmt| + 1, key, ':');
    FieldUnique(rest, 0, key, Split(rest, ':')[0], ':');
  }

  /** A supported format, `:` and a non-empty key without `:` parse back to that
      format and key, whatever follows a further `:`. */
  lemma {:induction false} ParseOutputRoundTrip(f: Format, key: string, tail: string)
    requires key != "" && ':' !in key
    requires tail == "" || tail[0] == ':'
    ensures ParseOutput(Str(Name(f) + ":" + key + tail)) == Ok(ParsedOutput(f, key))
  {
    NameSelects(f);
    var s := Name(f) + ":" + key + tail;
    var n := |Name(f)|;
    assert s[0..n] == Name(f);
    assert s[n + 1..n + 1 + |key|] == key;
    ParseOutputComplete(s, Name(f), key);
  }

  /** The format is checked before the key: `xml:` is an invalid format, not an
      empty key. */
  lemma FormatCheckedBeforeKey()
    ensures ParseOutput(Str("xml:")) == Err(InvalidFormat("xml"))
  {
    ParseOutputComplete("xml:", "xml", "");
  }

  /** Each failure has a message of its own. */
  lemma MessagesDistinct(e1: ParseError, e2: ParseError)
    requires e1 != e2
    ensures Message(e1) != Message(e2)
  {
    var m1, m2 := Message(e1), Message(e2);
    if e1.InvalidFormat? && e2.InvalidFormat? {
      var n := |InvalidFormatPrefix|;
      if |m1| == |m2| {
        assert e1.format == m1[n..n + |e1.format|];
        assert e2.format == m2[n..n + |e2.format|];
      }
    } else if e1.InvalidFormat? || e2.InvalidFormat? {
      assert m1[0] != m2[0];
    } else {
      assert m1[16] != m2[16] || |m1| != |m2|;
    }
  }
}
