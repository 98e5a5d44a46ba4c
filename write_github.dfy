/** Writing a rendered output to the GitHub Actions output file, using the runner's
    multi-line value form `key<<EOF`, value, `EOF`. */
module GithubOutput {
  import opened Strings

  /** The file system, as the contents of each file by path. */
  class FileSystem {
    var files: map<string, string>

    constructor (initial: map<string, string>)
      ensures files == initial
    {
      files := initial;
    }

    /** `fs.appendFile(path, data, "utf8")`: a missing file is created. */
    method AppendFile(path: string, data: string)
      modifies this
      ensures files == old(files)[path := ContentsOf(old(files), path) + data]
    {
      files := files[path := ContentsOf(files, path) + data];
    }
  }

  /** What reading a file gives: its contents, and nothing for a file that is not there. */
  function ContentsOf(files: map<string, string>, path: string): string {
    if path in files then files[path] else ""
  }

  const OutputVariable: string := "GITHUB_OUTPUT"

  /** `content.replace(/\r/g, "")`: the result holds no carriage return, only
      characters of `s`, and is no longer than `s`. */
  function StripCR(s: string): (r: string)
    ensures '\r' !in r
    ensures forall c | c in r :: c in s
    ensures |r| <= |s|
  {
    if s == [] then []
    else (if s[0] == '\r' then [] else [s[0]]) + StripCR(s[1..])
  }

  /** The entry appended for one output: the key and the opening `<<EOF` line, the
      value with its carriage returns removed, and the closing `EOF` line. */
  function Payload(key: string, content: string): (r: string)
    ensures StartsWith(r, key + "<<EOF\n") && EndsWith(r, "\nEOF\n")
    ensures |r| == |key| + 6 + |StripCR(content)| + 5
    ensures r[|key| + 6..|r| - 5] == StripCR(content)
  {
    var open, value := key + "<<EOF\n", StripCR(content);
    Framed(open, value, "\nEOF\n");
    var r := open + value + "\nEOF\n";
    assert r[|open|..|r| - 5] == value;
    r
  }

  /** The file the environment names for outputs; a missing or empty variable names
      none. */
  function OutputFile(env: map<string, string>): (r: Option<string>)
    ensures r.Some? <==> OutputVariable in env && env[OutputVariable] != ""
    ensures r.Some? ==> r.value == env[OutputVariable]
  {
    if OutputVariable in env && env[OutputVariable] != "" then Some(env[OutputVariable]) else None
  }

  /** The file system after `writeGithub(content, { env, key, fs })`. At most the named
      file is added, and every file keeps what it held at its start: a write appends
      and never overwrites. */
  function AfterWrite(files: map<string, string>, env: map<string, string>, key: string, content: string): (r: map<string, string>)
    ensures r.Keys == files.Keys + (if OutputFile(env).Some? then {OutputFile(env).value} else {})
    ensures forall p | p in files :: StartsWith(r[p], files[p])
  {
    match OutputFile(env)
    case None => files
    case Some(dst) =>
      var before := ContentsOf(files, dst);
      assert (before + Payload(key, content))[..|before|] == before;
      files[dst := before + Payload(key, content)]
  }

  /** `writeGithub(content, { env, key, fs })`. */
  method WriteGithub(content: string, env: map<string, string>, key: string, fs: FileSystem)
    modifies fs
    ensures fs.files == AfterWrite(old(fs.files), env, key, content)
  {
    var dst := OutputFile(env);
    if dst.None? {
      return;
    }
    fs.AppendFile(dst.value, Payload(key, content));
  }

  // ---------------------------------------------------------------------------
  // Properties

  /** With `GITHUB_OUTPUT` missing or empty nothing is written. */
  lemma WriteDisabled(files: map<string, string>, env: map<string, string>, key: string, content: string)
    requires OutputVariable !in env || env[OutputVariable] == ""
    ensures AfterWrite(files, env, key, content) == files
  {
  }

  /** Otherwise the named file gets the entry appended to what it held, and every other
      file is left as it was. */
  lemma WriteAppends(files: map<string, string>, env: map<string, string>, key: string, content: string)
    requires OutputVariable in env && env[OutputVariable] != ""
    ensures var dst, after := env[OutputVariable], AfterWrite(files, env, key, content);
      && after.Keys == files.Keys + {dst}
      && after[dst] == ContentsOf(files, dst) + key + "<<EOF\n" + StripCR(content) + "\nEOF\n"
      && forall p | p in files && p != dst :: after[p] == files[p]
  {
    var dst := env[OutputVariable];
    AppendAssoc(ContentsOf(files, dst), key + "<<EOF\n" + StripCR(content), "\nEOF\n");
    AppendAssoc(ContentsOf(files, dst), key + "<<EOF\n", StripCR(content));
    AppendAssoc(ContentsOf(files, dst), key, "<<EOF\n");
  }

  /** Two writes leave both entries, in the order of the calls: a write appends and
      never overwrites. */
  lemma WritesAccumulate(files: map<string, string>, env: map<string, string>,
                         key1: string, content1: string, key2: string, content2: string)
    requires OutputVariable in env && env[OutputVariable] != ""
    ensures var dst := env[OutputVariable];
      AfterWrite(AfterWrite(files, env, key1, content1), env, key2, content2)
        == files[dst := ContentsOf(files, dst) + Payload(key1, content1) + Payload(key2, content2)]
  {
  }

  /** Stripping works character by character: it distributes over concatenation. */
  lemma {:induction false} StripCRAppend(a: string, b: string)
    ensures StripCR(a + b) == StripCR(a) + StripCR(b)
  {
    if a == [] {
      assert a + b == b;
    } else {
      var head := if a[0] == '\r' then [] else [a[0]];
      assert (a + b)[0] == a[0] && (a + b)[1..] == a[1..] + b;
      assert StripCR(a + b) == head + StripCR(a[1..] + b);
      StripCRAppend(a[1..], b);
      AppendAssoc(head, StripCR(a[1..]), StripCR(b));
    }
  }

  /** A carriage return is dropped, any other character is kept. */
  lemma StripCRChar(c: char)
    ensures StripCR([c]) == if c == '\r' then "" else [c]
  {
  }

  /** The value keeps every character of the content except carriage returns, and
      keeps them in order: the character at position `i` of the content lands right
      after what the content before it strips to. */
  lemma StripCRKeepsOrder(s: string, i: nat)
    requires i < |s| && s[i] != '\r'
    ensures var before := StripCR(s[..i]);
      |before| < |StripCR(s)| && StripCR(s)[|before|] == s[i]
  {
    assert s == s[..i] + ([s[i]] + s[i + 1..]);
    StripCRAppend(s[..i], [s[i]] + s[i + 1..]);
    StripCRAppend([s[i]], s[i + 1..]);
  }

  /** Content without carriage returns passes through unchanged. */
  lemma {:induction false} StripCRNoCR(s: string)
    requires '\r' !in s
    ensures StripCR(s) == s
  {
    if s != [] {
      StripCRNoCR(s[1..]);
      assert s == [s[0]] + s[1..];
    }
  }

  /** Stripping twice is stripping once. */
  lemma StripCRIdempotent(s: string)
    ensures StripCR(StripCR(s)) == StripCR(s)
  {
    StripCRNoCR(StripCR(s));
  }
}
