/** The format-independent part of src/nodes_writer.rs: the properties text
    of a forest (`to_properties`), and the name of the output file
    (`default_filename`, `determine_output_filename`).

    File names follow the rules of Rust's `std::path::Path` on Unix: a path
    is split into components at '/', empty and "." components are dropped
    (except a leading "."), and the file name is the last component when
    it is a normal one.
 */
module NodesWriter {
  import opened Outcomes
  import opened Strings
  import opened NodeTypes
  import opened Tree
  import opened NodeRender

  /** `to_properties`, without printing or writing the text: the lines of
      every root, one root after the other. */
  method ToProperties(f: seq<Node>) returns (text: string)
    ensures text == RenderAll(f, [])
  {
    text := "";
    var i := 0;
    while i < |f|
      invariant 0 <= i <= |f|
      invariant text == RenderAll(f[..i], [])
    {
      RenderAllAppend(f[..i], [f[i]], []);
      assert f[..i + 1] == f[..i] + [f[i]];
      assert RenderAll([f[i]], []) == Render(f[i], []) + RenderAll([], []);
      text := text + Render(f[i], []);
      i := i + 1;
    }
    assert f[..i] == f;
  }

  /** The properties text of a forest holding the chain of one key is the
      key's line. */
  lemma ToPropertiesOneKey(key: string, value: string)
    ensures RenderAll([Chain(Split(key, '.'), 0, value)], []) == key + "=" + ToString(Parse(value)) + "\n"
  {
    RenderKey(key, value);
  }

  // ----- Paths -----

  datatype Component = RootDir | CurDir | ParentDir | Normal(name: string)

  /** The components after the first: empty and "." pieces vanish. */
  function Normalize(pieces: seq<string>): (r: seq<Component>)
    ensures forall k :: 0 <= k < |r| ==> r[k] != CurDir && r[k] != RootDir && r[k] != Normal("")
  {
    if pieces == [] then []
    else
      var p := pieces[0];
      var head := if p == "" || p == "." then [] else if p == ".." then [ParentDir] else [Normal(p)];
      head + Normalize(pieces[1..])
  }

  /** `Path::components`. */
  function Components(path: string): seq<Component> {
    var pieces := Split(path, '/');
    if |path| > 0 && path[0] == '/' then [RootDir] + Normalize(pieces)
    else if pieces[0] == "." then [CurDir] + Normalize(pieces[1..])
    else Normalize(pieces)
  }

  /** `Path::file_name`: the last component when it is a normal one. */
  function FileName(path: string): Option<string> {
    var c := Components(path);
    if c != [] && c[|c| - 1].Normal? then Some(c[|c| - 1].name) else None
  }

  /** Position of the last '.', or -1. */
  function LastDot(s: string): (r: int)
    ensures -1 <= r < |s|
    ensures r >= 0 ==> s[r] == '.'
    ensures forall k :: r < k < |s| ==> s[k] != '.'
  {
    if s == [] then -1
    else if s[|s| - 1] == '.' then |s| - 1
    else LastDot(s[..|s| - 1])
  }

  /** The stem of a file name: everything before the last '.', unless that
      '.' is the first character or there is none. */
  function Stem(name: string): string {
    var d := LastDot(name);
    if d <= 0 then name else name[..d]
  }

  /** `Path::file_stem`. */
  function FileStem(path: string): Option<string> {
    var n := FileName(path);
    if n.Some? then Some(Stem(n.value)) else None
  }

  datatype Format = PropertiesFormat | JsonFormat | YamlFormat | TomlFormat

  /** The target format and the input file of the command line. */
  datatype TargetFormat = TargetFormat(format: Format, file: string)

  function Extension(f: Format): string {
    match f
    case PropertiesFormat => "properties"
    case JsonFormat => "json"
    case YamlFormat => "yaml"
    case TomlFormat => "toml"
  }

  /** The path that stands for standard input. */
  const StdinPath: string := "-"

  /** `default_filename`: the input's file stem, "stdin" for the path "-",
      then '.' and the target's extension.  An input path without a file
      name panics on `unwrap`. */
  function DefaultFilename(target: TargetFormat): (r: Result<string, Panic>)
    ensures r.Err? <==> FileName(target.file).None?
  {
    var stem :- Unwrap(FileStem(target.file));
    var name := if Components(target.file) == Components(StdinPath) then "stdin" else stem;
    Ok(name + "." + ToLower(Extension(target.format)))
  }

  /** The default name is "stdin" or the input's file stem, then '.' and
      the target's extension. */
  lemma DefaultFilenameShape(target: TargetFormat)
    requires FileName(target.file).Some?
    ensures var r, ext := DefaultFilename(target).value, Extension(target.format);
      r == "stdin" + "." + ext || r == FileStem(target.file).value + "." + ext
  {
    ExtensionLower(target.format);
  }

  /** `determine_output_filename`: the name the user gave, else the default.
      Only the default can panic, and it does exactly when the input path has
      no file name. */
  function DetermineOutputFilename(output: Option<string>, target: TargetFormat): (r: Result<string, Panic>)
    ensures r.Err? <==> output.None? && FileName(target.file).None?
    ensures output.Some? ==> r == Ok(output.value)
    ensures output.None? ==> r == DefaultFilename(target)
  {
    if output.Some? then Ok(output.value) else DefaultFilename(target)
  }

  lemma ExtensionLower(f: Format)
    ensures ToLower(Extension(f)) == Extension(f)
  {
  }

  /** A path without '/' that is not "", "." or "..": one normal component. */
  lemma SingleComponent(name: string)
    requires '/' !in name && name != "" && name != "." && name != ".."
    ensures Components(name) == [Normal(name)]
  {
    assert Split(name, '/') == [name];
    assert Normalize([name]) == [Normal(name)] + Normalize([]);
  }

  /** A path of one normal component `name`: its stem, or "stdin" for
      "-", then '.' and the extension. */
  lemma DefaultFilenameSingle(f: Format, name: string)
    requires '/' !in name && name != "" && name != "." && name != ".."
    ensures DefaultFilename(TargetFormat(f, name)) ==
      Ok((if name == StdinPath then "stdin" else Stem(name)) + "." + Extension(f))
  {
    SingleComponent(name);
    SingleComponent(StdinPath);
    assert Components(name) == Components(StdinPath) <==> name == StdinPath;
    ExtensionLower(f);
  }

  /** A plain file name `base.ext` in the working directory gives
      `base.<extension>`: only the last extension is replaced. */
  lemma DefaultFilenameReplacesExtension(base: string, ext: string, f: Format)
    requires '/' !in base && '/' !in ext && '.' !in ext
    requires base != "" && base != "."
    ensures DefaultFilename(TargetFormat(f, base + "." + ext)) == Ok(base + "." + Extension(f))
  {
    var name := base + "." + ext;
    assert '/' !in name by {
      forall k | 0 <= k < |name|
        ensures name[k] != '/'
      {
        if k < |base| {
          assert name[k] == base[k];
        } else if k > |base| {
          assert name[k] == ext[k - |base| - 1];
        }
      }
    }
    assert name[0] == base[0];
    if |base| == 1 {
      assert base == [base[0]];
    }
    assert name != ".." && name != StdinPath;
    var d := LastDot(name);
    assert name[|base|] == '.';
    assert d == |base| by {
      forall k | |base| < k < |name|
        ensures name[k] != '.'
      {
        assert name[k] == ext[k - |base| - 1];
      }
    }
    assert name[..d] == base;
    DefaultFilenameSingle(f, name);
  }

  /** The input "-" (standard input) gives `stdin.<extension>`. */
  lemma DefaultFilenameStdin(f: Format)
    ensures DefaultFilename(TargetFormat(f, StdinPath)) == Ok("stdin" + "." + Extension(f))
  {
    DefaultFilenameSingle(f, StdinPath);
  }

  /** The empty path, the root and ".." have no file name, so the default
      name panics for them. */
  lemma DefaultFilenamePanics(f: Format, path: string)
    requires path == "" || path == "/" || path == ".."
    ensures DefaultFilename(TargetFormat(f, path)) == Err(UnwrapNone)
  {
    if path == "/" {
      assert IndexOf(path, '/') == 0;
      assert Split(path, '/') == ["", ""];
      assert ["", ""][1..] == [""];
      assert Normalize(["", ""]) == Normalize([""]) == [];
    } else {
      assert IndexOf(path, '/') == |path|;
      assert Split(path, '/') == [path];
      assert Normalize([path]) == (if path == "" then [] else [ParentDir]) + Normalize([]);
    }
  }
}
