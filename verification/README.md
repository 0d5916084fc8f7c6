# procon core in Dafny

procon converts configuration data between Java-style `.properties` files,
JSON and YAML. Every reader produces the same intermediate form: a forest of
named nodes (`Nodes`). Each node has a name, a level (0 for a root), a typed
value (`NodeType`) and children. A properties key `a.b.c=v` becomes a chain
of three nodes, and `Nodes::merge` folds each chain into the forest. JSON and
YAML documents are walked into trees directly. The properties writer prints
every valued node as `path=value`.

This project models that core as pure functions over immutable datatypes:

| file | module | models |
|---|---|---|
| `outcomes.dfy` | `Outcomes` | `Option`, `Result`, and the panics of the source (`IndexOutOfBounds`, `UnwrapNone`) as an error outcome |
| `strings.dfy` | `Strings` | `trim_start`/`trim_end`, ASCII `to_lowercase`, `split`, `split_once`, joining, and the lexicographic order of `String` |
| `node_type.dfy` | `NodeTypes` | `NodeType::parse` and `NodeType::to_string` (`src/node.rs`) |
| `tree.dfy` | `Tree` | `Node`, its `new`/`create_child_nodes` chain, node equality, and `find_common_node` |
| `forest.dfy` | `Nodes` | `Nodes::merge`, `push`, `is_empty` |
| `node_sort.dfy` | `NodeSort` | `Node::sort` and `Nodes::sort` (the stable sort by name) |
| `node_render.dfy` | `NodeRender` | `Into<String> for &Node` and `parent_name` |
| `line.dfy` | `Lines` | `Line::new` and `Line::add_multiline` |
| `property_reader.dfy` | `PropertyReader` | `Delimiter`, `process_line`, `add`, `add_multiline`, `is_multiline`, and the line loop of `PropertyFileReader::parse` |
| `property_forest.dfy` | `PropertyForest` | the map-to-forest loop of `PropertyFileReader::parse` |
| `json_reader.dfy` | `JsonReader` | `convert_json_values_to_nodes` and `json_to_node` over parsed JSON values |
| `yaml_reader.dfy` | `YamlReader` | `convert_yaml_values_to_nodes`, `yaml_to_node` and `yaml_value_to_string` over parsed YAML values |
| `writer.dfy` | `NodesWriter` | `to_properties`, `default_filename`, `determine_output_filename` |
| `command.dfy` | `Commands` | `Command::from_str` and `Display for Command` |

A panic in the source (indexing `children[0]` of a leaf, `unwrap` on `None`)
becomes an `Err(Panic)` result. The model therefore states exactly which
inputs panic; it does not forbid those inputs. The order in which a
`HashMap` or a JSON/YAML map is iterated is a parameter: the main properties
theorem holds for every order.

Where the project's documents and the code differ, the model follows the code,
except for the two defects listed under "## Findings": there the main model
uses the corrected definition and keeps the code as written beside it.
The other differences:

- `Delimiter::from_str` never fails. Any text that is not `=`, `:` or a
  single space reads as `Equals`. This includes the names that `Display`
  prints (`"Colon"`, `"Whitespace"`).
- `Nodes::merge` only ever follows `children[0]` of the incoming chain.
- A key whose complete path already exists in the forest makes
  `find_common_node` index `children[0]` of a leaf, which panics.
- A node that has a value is printed as one line. Its children are not printed.
- A top-level JSON array is merged element by element under the root name `""`.
- A line starting with `!` is skipped even while a continuation is pending.
- After one continuation line is absorbed, the pending key is cleared; a
  continuation that itself ends in a backslash does not continue its key again.
- A keyed line whose value does not end in an odd run of backslashes leaves
  an earlier pending key in place, so a later line without a key (even a
  `#` line) is still appended to that earlier key.
- The empty key `""` can be stored (a line of only whitespace stores it),
  and from then on every line without a key is appended to it whenever no
  other key is pending.

The sources disagree with each other in a few places. The model follows
`src/node.rs`:

- The JSON reader builds `NodeType::LIST`, while `src/node.rs` names the
  variant `ARRAY`.
- The YAML reader and the tests call `Node::new_from_name` and
  `new_from_parts`. These are modelled as `NewRoot` and `Chain`.
- `Nodes::new` is called with a different number of arguments than it declares.

## Model

| member | source | states |
|---|---|---|
| NodeTypes.Parse | src/node.rs:28-63 | parsing never yields NONE; a boolean is true exactly when the lower-cased text is "true"; array items are non-empty and comma-free and exist only for text holding a comma; numbers, strings and objects keep the text verbatim |
| NodeTypes.ParseBoolean | src/node.rs:29-31 | the text is a boolean exactly when it is "true" or "false" in any letter case, and the flag is the word's meaning |
| NodeTypes.ParseClassifies | src/node.rs:28-63 | the precedence of the tests: boolean, then leading brace (object), then comma (array), then the f64/usize grammar (numeric), else string — each variant iff its test holds and all earlier ones fail |
| NodeTypes.ParseArrayContents | src/node.rs:37-47 | the array items, concatenated, are the text with its commas removed, so no character other than a comma is lost; there are no more items than comma pieces |
| NodeTypes.ParseJoin | src/node.rs:37-47 | the join of two or more comma-free pieces (the first not starting with '{') parses as those pieces, in order, with the empty ones dropped; with Strings.JoinSplit this covers every comma text |
| NodeTypes.ArrayToString | src/node.rs:71-80 | the loop that puts a comma before every element but the first prints the comma-joined items; one element prints as itself, none as "" |
| NodeTypes.ParsePrintRoundTrip | src/node.rs:28-83 | printing the parse of a text gives the text back, unless parsing dropped empty comma pieces or lower-cased a boolean |
| NodeTypes.PrintParseRoundTrip | src/node.rs:28-83 | parsing the printed form gives the value back for a boolean, an object text, a number or string text that parse classifies as such, and an array of at least two non-empty comma-free items whose first does not start with '{' |
| NodeTypes.SingletonArrayParse | src/node_test.rs:137-147 | ",test2," parses as the one-item array ["test2"] |
| NodeTypes.SingletonArrayNoRoundTrip | src/node.rs:71-80 | a one-item array prints as its item, which reads back as a string, not an array |
| NodeTypes.EmptyArrayNoRoundTrip | src/node.rs:37-47 | a lone comma parses as the empty array, which prints as "" and reads back as the empty string |
| NodeTypes.BoolTextParses | src/json_file_reader.rs:60-61 | the text of a boolean reads back as that boolean |
| NodeTypes.DigitsAreNumeric | src/node.rs:49-58 | a non-empty run of digits is accepted as a number |
| NodeTypes.DecimalFractionIsNumeric | src/node.rs:49-52 | digits, a point and optional digits form a number |
| NodeTypes.WordIsNotNumeric | src/node.rs:49-62 | a word starting with a letter other than i, n or e is not a number |
| NodeTypes.EmptyIsNotNumeric | src/node.rs:49-62 | the empty text is not a number |
| NodeTypes.WordExample | src/node.rs:62 | a comma-free text that is not a boolean, starts with a letter other than i, n or e, and so is not a number, is stored as a string |
| NodeTypes.LengthIsNotBoolean | src/node.rs:29-31 | only texts of four or five characters can read as booleans |
| NodeTypes.StringExample | src/node_test.rs:7-14 | "string" parses as a string |
| NodeTypes.EmptyExample | src/node_test.rs:17-24 | the empty text parses as the empty string |
| NodeTypes.MixedCaseExamples | src/node_test.rs:27-48 | "faLse" and "tRue" parse as booleans |
| NodeTypes.SemicolonExample | src/node_test.rs:150-160 | a semicolon does not separate array items |
| NodeTypes.ParseNumericExamples | src/node_test.rs:75-108 | "1" and "1.5" are numeric and a text in braces is an object (also "20" and "20.4", as in tests/property_parser_integrationtest.rs) |
| NodeTypes.ParseArrayExamples | src/node_test.rs:111-147 | comma lists parse to their non-empty pieces, with trailing and leading commas ignored |
| NodeTypes.ArrayExample | src/node.rs:37-47 | text made of three comma-separated pieces parses to the non-empty pieces |
| Strings.LexLeTotal | src/node.rs:204-208 | the name order used to sort nodes is total |
| Strings.LexLeTransitive | src/node.rs:204-208 | the name order is transitive |
| Strings.LexLeAntisymmetric | src/node.rs:204-208 | two names ordered both ways are equal |
| Strings.TrimStart | src/line.rs:34-37 | only leading whitespace is removed, and all of it |
| Strings.TrimEnd | src/line.rs:29-32 | only trailing whitespace is removed, and all of it |
| Strings.SplitOnce | src/property_file_reader.rs:117-122 | the text splits at the first delimiter into a delimiter-free key and the rest, or not at all when the delimiter is absent |
| Strings.SplitJoin | src/node.rs:37 | splitting the comma-join of comma-free pieces gives the pieces back |
| Strings.JoinSplit | src/node.rs:37 | joining the pieces of a split gives the text back |
| Lines.NewLine | src/line.rs:9-15 | a line's key has no trailing and its value no leading whitespace, and only whitespace was removed; the line number is kept |
| Lines.RemoveLastChar | src/line.rs:23-27 | exactly the last character is dropped; the empty text stays empty |
| Lines.AddMultiline | src/line.rs:17-21 | a continuation keeps the key and line number; the new value is the old value without its last character, followed by the continuation without its leading whitespace (just that continuation when the old value is empty) |
| Lines.AddMultilineReplacesLastChar | src/line.rs:17-21 | whatever the value's last character, the trimmed continuation takes its place |
| Lines.AddMultilineReplacesBackslash | src/line.rs:17-21 | a value ending in a backslash has the backslash replaced by the continuation without its leading whitespace |
| Lines.AddMultilineTrimmed | src/line.rs:17-21 | a continued value still has no leading whitespace |
| PropertyReader.DelimiterFromStr | src/property_file_reader.rs:40-51 | reading a delimiter never fails; Colon only for ":", Whitespace only for " ", Equals for anything else |
| PropertyReader.DelimiterRoundTrip | src/property_file_reader.rs:30-51 | a delimiter's character reads back as that delimiter |
| PropertyReader.DelimiterNameReadsAsEquals | src/property_file_reader.rs:24-51 | the name Display prints reads back as Equals for every delimiter |
| PropertyReader.IsMultilineLoop | src/property_file_reader.rs:170-186 | the backwards counting loop says "multiline" exactly when the value ends in an odd number of backslashes |
| PropertyReader.Add | src/property_file_reader.rs:142-147 | adding stores under the trimmed key and keeps every other key and the awaited key |
| PropertyReader.AddContinuation | src/property_file_reader.rs:149-154 | a continuation changes no key set and ends the wait for a continuation |
| PropertyReader.IgnoredLines | src/property_file_reader.rs:106-114 | empty lines, lines starting with '!', and '#' lines while no continuation is awaited leave the reader unchanged |
| PropertyReader.KeyValueLine | src/property_file_reader.rs:116-140 | a line with a key before its first delimiter stores (or replaces) that trimmed key's line and touches no other key; it makes its key the pending key when the value ends in an odd number of backslashes, and otherwise leaves the earlier pending key in place |
| PropertyReader.StaleKeyContinues | src/property_file_reader.rs:112-139 | a pending key survives a later keyed line that does not continue, so a following keyless line, even one starting with '#', is appended to the earlier key's value |
| PropertyReader.ContinuationLine | src/property_file_reader.rs:124-129 | a line without a key, while the pending key (the key of the last multiline keyed line, until a continuation is absorbed; "" when none, and "" itself can be stored) is a stored key, is appended to that key's value and clears the pending key |
| PropertyReader.KeyOnlyLine | src/property_file_reader.rs:124-131 | a line without a key, while the pending key is not a stored key, is stored under the whole trimmed line |
| PropertyReader.KeyValueAtFirst | src/property_file_reader.rs:117-122 | a line splits at its first delimiter |
| PropertyReader.KeyValueNoKey | src/property_file_reader.rs:117-122 | a line without a delimiter, or starting with one, has an empty key |
| PropertyReader.ProcessLineValid | src/property_file_reader.rs:106-140 | every stored line sits under its own trimmed key with a trimmed value, and an awaited key is always a stored one; processing a line keeps this |
| PropertyReader.ReadFileValid | src/property_file_reader.rs:66-74 | after reading a whole file, the stored lines satisfy that invariant |
| PropertyForest.ChainLookup | src/node.rs:174-193 | the chain for a key answers the parsed value at the key's full path, "no value" at its proper prefixes, and nothing elsewhere |
| PropertyForest.BuildForestSpec | src/property_file_reader.rs:77-90 | merging the chains of the keys in any order panics exactly when a key's path is a prefix of (or equal to) an earlier key's path; otherwise every path answers what the first key knowing it says |
| PropertyForest.BuildForestFindsKeys | src/property_file_reader.rs:81-90 | when merging succeeds, every key's path holds that key's parsed value |
| PropertyForest.BuildForestUnique | src/property_file_reader.rs:77-90 | the forest built from the keys has distinct root names and unique sibling names at every depth |
| PropertyForest.ParsePropertiesSpec | src/property_file_reader.rs:61-93 | reading a properties file yields a forest of roots with unique names at every depth, in which every stored key's dotted path holds its parsed value, or a panic exactly on a prefix clash |
| Tree.Chain | src/node.rs:174-193 | the chain for dotted parts has one node per part, each one level deeper, the value parsed onto the last node only |
| Tree.NewNode | src/node.rs:109-122 | a node can be built exactly when there is at least one part; it is a level-0 chain spelling the parts |
| Tree.SameIndexIsNameIndex | src/node.rs:196-200 | among siblings on one level, node equality (name and level) is equality of names |
| Tree.FindCommonNode | src/node.rs:136-163 | "not this root" returns the node unchanged; a merge keeps the node's name, level and value, keeps the old children's names in order as a prefix of the new children, and adds at most one child |
| Tree.ChainUnique | src/node.rs:174-193 | a chain has unique sibling names at every depth |
| Tree.GraftChildUnique | src/node.rs:153-162 | grafting a chain below a node whose siblings have unique names keeps them unique at every depth |
| Tree.SameRootUnique | src/node.rs:148-151 | merging a chain into the root of its name keeps sibling names unique at every depth |
| Tree.OtherRootUntouched | src/node.rs:143-146 | a different root is passed over unchanged |
| Tree.SameRootGraft | src/node.rs:148-151 | merging a chain into the root with its name panics exactly when the chain's whole path already exists; otherwise every path answers the old tree's value, else the chain's |
| Tree.GraftChild | src/node.rs:153-162 | below a node, the chain is followed into the child of the same name or pushed as a new child; the result answers the old value, else the chain's, and levels stay consistent |
| Tree.LookupChain | src/node.rs:174-193 | a path into a chain follows its only children |
| Nodes.Merge | src/nodes.rs:37-49 | a merged forest is never empty; it either keeps its number of roots or gains the new tree at the end |
| Nodes.MergeNewName | src/nodes.rs:37-49 | a tree whose root name is new is pushed as the last root |
| Nodes.MergeChain | src/nodes.rs:37-49 | merging a chain panics exactly when its whole path is present; otherwise roots stay roots, every path answers the old forest's value else the chain's, and a root is added only for a new name |
| Nodes.MergeUnique | src/nodes.rs:37-49 | merging a chain keeps root names pairwise distinct and sibling names unique at every depth |
| Nodes.SortKeepsForest | src/nodes.rs:30-35 | sorting keeps the number of roots, their shape, the value at every path, and unique names |
| NodeSort.InsertUnique | src/node.rs:171 | inserting a node of a new name keeps sibling names distinct |
| NodeSort.SortByNameUnique | src/node.rs:171 | sorting siblings keeps their names distinct |
| NodeSort.SortNodeUnique | src/node.rs:165-172 | sorting a node keeps sibling names unique at every depth |
| NodeSort.SortForestUnique | src/nodes.rs:30-35 | sorting a forest keeps root names distinct and sibling names unique at every depth |
| NodeSort.Insert | src/node.rs:171 | insertion adds exactly the new node |
| NodeSort.SortByName | src/node.rs:171 | sorting siblings permutes them |
| NodeSort.SortByNameSorted | src/node.rs:204-208 | sorted siblings are in name order |
| NodeSort.SortByNameNamed | src/node.rs:171 | the sort is stable: the first sibling of each name stays the first |
| NodeSort.SortNode | src/node.rs:165-172 | sorting a node keeps its name, level and value |
| NodeSort.SortEachSorts | src/nodes.rs:31-33 | every root is sorted in place: root i keeps its position, name, level and value, is sorted at every depth, and answers every path below it as before |
| NodeSort.SortForest | src/nodes.rs:30-35 | the sorted forest is a permutation of the sorted roots |
| NodeSort.SortForestLookup | src/nodes.rs:30-35 | sorting changes the value at no path |
| NodeSort.SortNodeSorts | src/node.rs:165-172 | after sorting, children are in name order at every depth, and levels stay consistent |
| NodeSort.SortNodeSortedIdentity | src/node.rs:165-172 | sorting a tree sorted at every depth changes nothing |
| NodeSort.SortNodeIdempotent | src/node.rs:165-172 | sorting twice is sorting once |
| NodeSort.SortForestSorts | src/nodes.rs:30-35 | a sorted forest is in name order at every depth, and sorting it again changes nothing |
| NodeRender.RenderValued | src/node.rs:230-246 | a valued node prints one line, its dotted path from the root, '=' and its value, whatever its children |
| NodeRender.RenderAllAppend | src/node.rs:221-228 | the text of a list of nodes is the texts of its parts, in order |
| NodeRender.RenderChain | src/node.rs:217-249 | the chain of a key prints the single line for its full path and value |
| NodeRender.RenderKey | src/node.rs:217-259 | the chain of a dotted key prints "key=value" with the key as written |
| NodeRender.PathAsWrittenAgrees | src/node.rs:230-259 | with dot-free names, the printer's reversed walk spells the path from the root |
| NodeRender.PathAsWrittenSwapsDottedName | src/node.rs:230-259 | a node named "a.b" (possible from JSON or YAML) is printed as "b.a" |
| JsonReader.JsonToNode | src/json_file_reader.rs:41-91 | a JSON value yields a node exactly when it is not null, named by its key at the given level, with children only for objects |
| JsonReader.JsonToNodeValue | src/json_file_reader.rs:55-87 | strings, booleans and numbers are parsed from their text, arrays hold their element texts, objects hold the nodes of their non-null entries |
| JsonReader.ElementTexts | src/json_file_reader.rs:80-87 | an array holds one text per element, in order: a string element's contents, and for any other element its serde text, the text the code as written stores |
| JsonReader.ChildNodesNames | src/json_file_reader.rs:68-79 | an object's children are its non-null entries, in order and under their keys |
| JsonReader.ChildNodesLookup | src/json_file_reader.rs:68-79 | a path into an object's children answers the value of the first non-null entry along that path |
| JsonReader.MergeEntriesFresh | src/json_file_reader.rs:24-29 | top-level entries with distinct keys become one root each, in order; a null one panics |
| JsonReader.ConvertObject | src/json_file_reader.rs:24-29 | a JSON object becomes one root per key, the i-th root named by the i-th key, answering the document's value at every path, or panics exactly when a top-level value is null |
| JsonReader.ConvertScalar | src/json_file_reader.rs:36 | a top-level scalar or null yields an empty forest |
| JsonReader.ConvertSingletonArray | src/json_file_reader.rs:30-35 | a one-element top-level array yields the element's node under the name "", or panics on null |
| JsonReader.ConvertScalarPairPanics | src/json_file_reader.rs:30-35 | a top-level array of two numbers panics: both are roots named "" with no children |
| JsonReader.ElementTextKeepsQuotes | src/json_file_reader.rs:83 | as written, an array's string element keeps its JSON quotes |
| JsonReader.ElementTextAgrees | src/json_file_reader.rs:83 | the corrected element text differs from the written one only for strings |
| YamlReader.Untag | src/yaml_file_reader.rs:105-113 | the accessors see through any number of tags |
| YamlReader.YamlToNode | src/yaml_file_reader.rs:48-103 | a walked value yields a node exactly when it is neither null nor tagged, named by its key at the given level |
| YamlReader.YamlToNodeSpec | src/yaml_file_reader.rs:48-103 | the walk panics exactly when some key below is not a string or a sequence holds a non-scalar; otherwise the node's value is the value's meaning |
| YamlReader.SequenceTextsSpec | src/yaml_file_reader.rs:105-113 | a sequence's texts exist exactly when every element is a number, boolean or string, one text per element in order |
| YamlReader.ChildNodesOk | src/yaml_file_reader.rs:83-98 | a mapping's children can be built exactly when every key is a string and every value walks |
| YamlReader.ChildNodesNames | src/yaml_file_reader.rs:83-98 | a mapping's children are its entries with present values, in order and under their keys |
| YamlReader.ChildNodesLookup | src/yaml_file_reader.rs:83-98 | a path into a mapping's children answers the value of the first present entry along that path |
| YamlReader.MergeEntriesFresh | src/yaml_file_reader.rs:26-32 | top-level entries with distinct keys become one root each; the merge panics exactly when some entry cannot become a root |
| YamlReader.ConvertMapping | src/yaml_file_reader.rs:26-32 | a YAML mapping becomes one root per key in document order, the i-th root named by the i-th key, answering the document's value at every path, or panics exactly when some entry cannot become a root |
| YamlReader.ConvertSequence | src/yaml_file_reader.rs:33-42 | a top-level sequence becomes one root "" holding the element texts, or panics exactly on a non-scalar element |
| YamlReader.ConvertScalar | src/yaml_file_reader.rs:43 | a top-level scalar, null or tag yields an empty forest |
| NodesWriter.ToProperties | src/nodes_writer.rs:64-72 | the loop's text is every root's lines, one root after the other |
| NodesWriter.ToPropertiesOneKey | src/nodes_writer.rs:64-72 | a forest holding one key prints that key's "key=value" line |
| NodesWriter.DefaultFilename | src/nodes_writer.rs:117-131 | the default output name panics exactly when the input path has no file name |
| NodesWriter.DefaultFilenameShape | src/nodes_writer.rs:117-131 | the default name is "stdin" or the input's file stem, then '.' and the target's extension |
| NodesWriter.DefaultFilenameSingle | src/nodes_writer.rs:117-131 | for a one-component path, the name is its stem, or "stdin" for "-" |
| NodesWriter.DefaultFilenameReplacesExtension | src/nodes_writer.rs:124 | only the last extension of the input's name is replaced (as in src/nodes_writer_test.rs) |
| NodesWriter.DefaultFilenameStdin | src/nodes_writer.rs:126-129 | standard input gives "stdin." and the extension |
| NodesWriter.DefaultFilenamePanics | src/nodes_writer.rs:124 | the empty path, "/" and ".." have no file stem, so the unwrap panics |
| NodesWriter.LastDot | src/nodes_writer.rs:124 | the stem is cut at the last '.' of the name |
| NodesWriter.DetermineOutputFilename | src/nodes_writer.rs:105-115 | a name the user gives is used as is and never panics; without one the default name is used, which panics exactly when the input path has no file name |
| Commands.FromStr | src/command.rs:13-21 | a command is read exactly when the lower-cased input is one of the command words; otherwise the error is the input followed by "Not a valid command" |
| Commands.DisplayRoundTrip | src/command.rs:13-28 | reading a printed command gives the command back |
| Commands.FromStrCaseInsensitive | src/command.rs:14 | only the lower-cased input matters |
| Commands.FromStrWord | src/command.rs:14-18 | each word names its command, and "yml" is another name for YAML |

## Left out

- Reading files and standard input, command-line parsing, logging, the interactive shell and `main` are I/O. The readers take lines or parsed documents; the writer returns text.
- Parsing JSON and YAML text is done by serde, outside the core. The readers start from a parsed value (`Json`, `Yaml`).
- Printing numbers is also done by serde and the standard library. A JSON number carries the text `Number::to_string` prints. A YAML number carries the text of its `f64` and of its own `to_string`.
- The JSON, YAML and TOML emitters (`to_json`, `to_yaml`, `to_toml`), `output_content` and `nodes_converter` are outside the core.
- `print_statistics`, and the line counters and comment list of `Nodes`, only feed logging.
- The `parent` pointers of nodes are not stored. Rendering passes the ancestors' names down instead. For names without '.' this gives the path the code builds; for a name holding '.' it gives the path from the root, which is the corrected path of the first finding.
- NodeRender.Render: prints the corrected path `PropertyPath`, not the path the code builds; the code as written is `NodeRender.PathAsWritten`, and the two agree when no name holds '.'.
- JsonReader.JsonToNode: stores the corrected element text `ElementText` for array elements, not the code's `Value::to_string`; the code as written is `JsonReader.ElementTextAsWritten`, and the two differ only for string elements.
- NodeTypes.PrintParseRoundTrip: arrays of fewer than two items, which parse produces (`",test2,"` gives `["test2"]`, `","` gives `[]`), do not round-trip: they print as a plain string. So do number and string texts that parse would classify otherwise.
- Iteration order of the properties `HashMap` and of JSON/YAML maps: the model takes the order as a parameter (`order`, or the entry sequence). The theorems hold for every order.
- PropertyForest.BuildForestSpec: requires the keys to be enumerated without repetition, as a map's keys are. JsonReader.ConvertObject and YamlReader.ConvertMapping likewise require distinct keys.
- JsonReader.Convert: for a top-level array, only the one-element case and the panic for two scalars are proved. The general multi-element merge under root "" is not characterised.
- Strings.ToLower: lower-cases ASCII letters only. Unicode `to_lowercase` agrees with it on every comparison the code makes, since all of those compare against ASCII words.
- NodeTypes.IsNumeric: implements the documented grammar of `f64::from_str` (sign, `inf`, `infinity`, `nan`, decimal with exponent). The `usize` fallback is a subset of it. Overflow to infinity is irrelevant, because only acceptance is used.
- Nodes.Push and Nodes.IsEmpty: no contract of their own; they are used in the contracts of `Merge` and `MergeNewName`.
- Lines.NewLine: the line number is a `nat`, so the wrap-around of the source's `u32` counter after 2^32 lines is not modelled.
- PropertyReader.ReadFileValid: no lemma says over a whole file which of several lines with the same key survives. PropertyReader.KeyValueLine states the replacement line by line.

## Findings

| source | as written | input that shows it | evidently intended | confidence | as-written member | corrected member |
|---|---|---|---|---|---|---|
| src/node.rs:230-259 | the printer builds the path with `parent_name` (node first, then its ancestors, joined by '.'), then splits that text at '.' and reverses the pieces | a JSON or YAML key `"a.b"` holding a value: it prints as `b.a=…` | the path from the root, joined by '.', so `a.b=…` | not executed | NodeRender.PathAsWritten, NodeRender.PathAsWrittenSwapsDottedName | NodeRender.PropertyPath, NodeRender.PathAsWrittenAgrees |
| src/json_file_reader.rs:83 | each array element is stored as `Value::to_string`, the compact JSON text, which keeps the quotes of a string | `{"readers": ["value-1","value-1"]}` gives the items `"value-1"` with their quotes, while src/json_file_reader_test.rs:46-56 expects `value-1,value-1` | a string element contributes its contents, as a YAML sequence does | not executed | JsonReader.ElementTextAsWritten, JsonReader.ElementTextKeepsQuotes | JsonReader.ElementText, JsonReader.ElementTextAgrees |

The corrected members are the ones the rest of the model uses: `NodeRender.Render` prints `PropertyPath`, and `JsonReader.JsonToNode` stores `ElementText`. `NodeRender.PathAsWrittenAgrees` proves that the two paths agree when no name holds a '.'. `JsonReader.ElementTextAgrees` proves that the two element texts differ only for strings.
