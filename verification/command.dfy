/** The command word of the interactive shell (src/command.rs): read
    case-insensitively, printed with its variant name. */
module Commands {
  import opened Outcomes
  import opened Strings

  datatype Command = Properties | Yaml | Json

  /** The words that name a command, in lower case. */
  predicate IsCommandWord(w: string) {
    w == "properties" || w == "yaml" || w == "yml" || w == "json"
  }

  /** `Command::from_str`: the lower-cased input names a command, or the
      input itself followed by "Not a valid command" is the error. */
  function FromStr(input: string): (r: Result<Command, string>)
    ensures r.Ok? <==> IsCommandWord(ToLower(input))
    ensures r.Err? ==> r.error == input + "Not a valid command"
  {
    var word := ToLower(input);
    if word == "properties" then Ok(Properties)
    else if word == "yaml" || word == "yml" then Ok(Yaml)
    else if word == "json" then Ok(Json)
    else Err(input + "Not a valid command")
  }

  /** `Display for Command`: the variant name. */
  function Display(c: Command): string {
    match c
    case Properties => "Properties"
    case Yaml => "Yaml"
    case Json => "Json"
  }

  /** Reading a printed command gives the command back. */
  lemma DisplayRoundTrip(c: Command)
    ensures FromStr(Display(c)) == Ok(c)
  {
    match c
    case Properties => LowerProperties(Display(c));
    case Yaml => LowerYaml();
    case Json => LowerJson();
  }

  lemma LowerProperties(s: string)
    requires s == "Properties"
    ensures ToLower(s) == "properties"
  {
  }

  lemma LowerYaml()
    ensures ToLower("Yaml") == "yaml"
  {
  }

  lemma LowerJson()
    ensures ToLower("Json") == "json"
  {
  }

  /** Only the lower-cased input matters. */
  lemma FromStrCaseInsensitive(a: string, b: string)
    requires ToLower(a) == ToLower(b)
    ensures FromStr(a).Ok? <==> FromStr(b).Ok?
    ensures FromStr(a).Ok? ==> FromStr(a) == FromStr(b)
  {
  }

  /** Each word names its command; "yml" is another name for YAML. */
  lemma FromStrWord(w: string)
    requires IsCommandWord(w)
    ensures FromStr(w) == Ok(if w == "properties" then Properties else if w == "json" then Json else Yaml)
  {
    LowerIdentity(w);
  }

  lemma LowerIdentity(s: string)
    requires forall k :: 0 <= k < |s| ==> 'a' <= s[k] <= 'z'
    ensures ToLower(s) == s
  {
  }
}
