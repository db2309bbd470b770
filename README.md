# Route graphs and key translation for the train-schedule challenge

A Dafny model of two in-memory transforms from the challenge starter kit.

**Route graphs** (`utils/route_graph.py`, module `RouteGraph`). A route is an
ordered list of alternative route paths, and each path is a sequence of route sections.
`from_node_id` and `to_node_id` pick the node a section is entered at and the
node it is left at. The id is one of three kinds:

- the section's first route-alternative marker, `(<marker>)`;
- a path-boundary id, `(<seq>_beginning)` or `(<seq>_end)`;
- an adjacency id, `(<prev>-><this>)` or `(<this>-><next>)`.

`generate_route_graphs` builds one networkx `DiGraph` per route. It adds one
edge from the entry id to the exit id for each section of each path, and
attaches the path id as `abschnittsfolge_id`. Then it stores the graph under
the route id.

- The graph is a class, `DiGraph`, with a node set and a map from (u, v) to the
  owning path id. `add_edge` adds missing nodes and overwrites the attribute
  of an existing (u, v) edge.
- The two loops are the methods `BuildRouteGraph` and `AddPath`, and the
  registry loop is `GenerateRouteGraphs`. Each is proved equal to a function
  of its input (`PathsEdges`, `LatestRoutes`).
- The lemmas state the id rules and the edge and node sets of the result.
- The id functions read neighbour `i - 1` only when `i > 0` and neighbour
  `i + 1` only when `i` is not the last index. Dafny checks each of these
  reads against the index precondition of `FromNodeId` and `ToNodeId`.

**Key translation** (`utils/translate.py`, module `Translate`).

- The three lookups fall back to the key itself.
- The row loop of `setup_translation_table` fills a German→English and an
  English→German dict.
- `translate` rebuilds a deserialised problem instance or solution with every
  key renamed, except `"parameters"`. It recurses into dicts and into lists
  whose first entry is a dict.
- `translate_message_word_for_word` keeps each violation's message as
  `message_original`. It then replaces each word of the message, in turn, by
  its translation. `str.replace` rewrites every occurrence of the word, also
  inside longer words.

The script's four global tables are passed as one `Tables` value. JSON is the
datatype `Json` (module `Json`). A Python dict is an association list in
insertion order, and `Put` is `d[k] = v`. Raised exceptions are modelled as
`Failure` values with an error constructor per cause. Module `PyStr` models the
string builtins used: `str(int)`, `str.split()` and `str.replace`.

## Model

| member | source | states |
|---|---|---|
| PyStr.NatToStr | utils/route_graph.py:17 | `str(n)` of a natural number is a non-empty string of decimal digits with no leading zero |
| PyStr.IntToStr | utils/route_graph.py:17 | `str(n)` of an int is non-empty: an optional leading minus, then decimal digits, with at least one digit after a minus |
| PyStr.NatToStrValue | utils/route_graph.py:17 | the digits of `str(n)` spell `n` in decimal |
| PyStr.IntToStrValue | utils/route_graph.py:17 | `str(i)` spells `i` in decimal, after a minus sign exactly when `i` is negative |
| PyStr.IntToStrInjective | utils/route_graph.py:17 | different ints give different strings |
| PyStr.SplitWords | utils/translate.py:97 | every piece of `split()` is a non-empty run without whitespace; together the pieces hold exactly the string's non-space characters |
| PyStr.SplitWord | utils/translate.py:97 | a word without whitespace splits into itself alone |
| PyStr.SplitAtSpace | utils/translate.py:97 | `split()` cuts at every whitespace character: the pieces of `a + c + b` are those of `a` followed by those of `b` |
| PyStr.ReplaceSelf | utils/translate.py:98 | `s.replace(w, w) == s` for every pattern, the empty one included |
| Json.PutSpec | utils/translate.py:60 | after `d[k] = v`: `k` holds `v`, every other key keeps its value, the key set gains `k`, a new key is appended at the end, a present key keeps its place, and unique keys stay unique |
| Json.PutPut | utils/translate.py:98 | a second assignment to the same key overrides the first |
| Json.PutSame | utils/translate.py:96-98 | assigning a key the value it already holds changes nothing |
| RouteGraph.DiGraph.constructor | utils/route_graph.py:45 | a new graph has `route_id` and `name` as given, and no nodes or edges; its nodes are the endpoints of its edges |
| RouteGraph.DiGraph.AddEdge | utils/route_graph.py:52-54 | `add_edge(u, v, abschnittsfolge_id=id)` adds `u` and `v` to the nodes and sets the (u, v) edge to `id`, overwriting an existing one; the nodes stay exactly the endpoints of the edges |
| RouteGraph.AddPath | utils/route_graph.py:49-54 | the inner loop adds each section's (from id, to id) edge in section order, and the nodes stay the endpoints of the edges |
| RouteGraph.BuildRouteGraph | utils/route_graph.py:42-56 | each route gets a fresh graph with `route_id = id`, name `"Route-Graph for route " + str(id)`, the edges of all its paths in order, and exactly their endpoints as nodes |
| RouteGraph.GenerateRouteGraphs | utils/route_graph.py:36-59 | the result has one graph per route id; each describes the last route with that id; every graph is fresh and two ids never share a graph |
| RouteGraph.LatestRoutesSpec | utils/route_graph.py:56 | the registry's keys are exactly the route ids; an id maps to the last route that has it |
| RouteGraph.FromNodeId | utils/route_graph.py:10-20 | defines `from_node_id` for a section at an index inside its path: the first entry marker wins; otherwise index 0 gives the beginning id; otherwise the adjacency id with the previous section (its rules are stated by the lemmas below) |
| RouteGraph.ToNodeId | utils/route_graph.py:23-34 | defines `to_node_id`: the first exit marker wins; otherwise the last index gives the end id; otherwise the adjacency id with the next section |
| RouteGraph.EntryMarkerMerge | utils/route_graph.py:11-14 | sections with the same first entry marker are entered at the node `(marker)`, whatever their path or index |
| RouteGraph.ExitMarkerMerge | utils/route_graph.py:24-28 | sections with the same first exit marker are left at the node `(marker)`, whatever their path or index |
| RouteGraph.ExitEntryMerge | utils/route_graph.py:11-28 | a section whose exit marker is another's entry marker ends at the node where the other starts |
| RouteGraph.NoMarkerFallsThrough | utils/route_graph.py:11-13 | a missing marker key, `None` and `[]` are the only ways to have no marker, and all three give the same positional ids |
| RouteGraph.BoundaryIds | utils/route_graph.py:16-31 | without markers, the first section starts at `(<seq>_beginning)` and the last one ends at `(<seq>_end)`; a one-section path gets both |
| RouteGraph.Chaining | utils/route_graph.py:19-34 | without markers between them, section `i - 1` ends where section `i` starts, at `(<seq i-1>-><seq i>)` |
| RouteGraph.PathIsWalk | utils/route_graph.py:10-34 | when every junction is marker-free or names the same marker on both sides, each edge of a path starts where the previous one ends |
| RouteGraph.NodeIdsParenthesized | utils/route_graph.py:10-34 | every entry or exit id starts with `(` and ends with `)` |
| RouteGraph.PositionalIdsDistinct | utils/route_graph.py:17-20 | beginning, end and adjacency ids never coincide, for any sequence numbers |
| RouteGraph.BeginningIdInjective | utils/route_graph.py:17 | different sequence numbers give different beginning ids |
| RouteGraph.EndIdInjective | utils/route_graph.py:31 | different sequence numbers give different end ids |
| RouteGraph.AdjacencyIdInjective | utils/route_graph.py:19-20 | an adjacency id determines both sequence numbers it is built from |
| RouteGraph.MarkerIdInjective | utils/route_graph.py:14 | different markers give different node ids |
| RouteGraph.RouteEdgeSet | utils/route_graph.py:48-54 | a route's edge set is exactly the set of (from id, to id) pairs of its sections, and there are at most as many edges as sections |
| RouteGraph.RouteNodes | utils/route_graph.py:52-53 | the nodes are exactly the entry and exit ids of the sections |
| RouteGraph.EndpointsSize | utils/route_graph.py:52-53 | the edges added give at most two nodes each |
| RouteGraph.NodeBound | utils/route_graph.py:48-54 | a route's graph has at most twice as many nodes as the route has sections |
| RouteGraph.RouteEdgeOwner | utils/route_graph.py:52-54 | an edge's `abschnittsfolge_id` is the id of the path of the last section, in path-then-section order, that gives that (from, to) pair |
| RouteGraph.TwoSectionPath | utils/route_graph.py:16-20 | a path with sections 10 and 20 has edges `(10_beginning)→(10->20)` and `(10->20)→(20_end)` and exactly those three nodes |
| RouteGraph.SharedMarkerNode | utils/route_graph.py:24-28 | a path ending at marker AK5 and a path starting at AK5 meet at node `(AK5)`: the first path's edge enters it and the second's leaves it |
| RouteGraph.SharedEdgeCollapses | utils/route_graph.py:52-54 | two paths with the same markers around a section give one edge, not two, and the later path id wins |
| Translate.TranslateToEng | utils/translate.py:66-72 | a known German key gives its English entry; an unknown key is returned as it is |
| Translate.TranslateToGer | utils/translate.py:74-80 | a known English key gives its German entry; an unknown key is returned as it is |
| Translate.TranslateMessageToEng | utils/translate.py:82-88 | a known message word gives its translation; an unknown word is returned as it is |
| Translate.SetupTranslationTable | utils/translate.py:21-30 | the row loop gives the tables of `TableOf`: both dicts after all data rows, an error for an empty file, or the first malformed row |
| Translate.FillTablesFails | utils/translate.py:27 | once a row fails to unpack, loading ends with that error |
| Translate.FillTablesOutcome | utils/translate.py:26-29 | the rows load exactly when every data row has two fields; otherwise the error names the first bad row |
| Translate.TableOutcome | utils/translate.py:25-29 | loading succeeds exactly on a non-empty file whose data rows all have two fields; an empty file fails on the header; otherwise the first bad row is reported |
| Translate.FillTablesKeys | utils/translate.py:27-29 | the German dict's keys are exactly the German words of the data rows, and the English dict's keys exactly the English words |
| Translate.FillTablesLastGer | utils/translate.py:28 | a German word maps to the English word of the last row that lists it |
| Translate.FillTablesLastEng | utils/translate.py:29 | an English word maps to the German word of the last row that lists it |
| Translate.GerEngRoundTrip | utils/translate.py:27-29 | if no English word repeats, `ENG_2_GER[GER_2_ENG[g]] == g` for every German word `g` |
| Translate.EngGerRoundTrip | utils/translate.py:27-29 | if no German word repeats, `GER_2_ENG[ENG_2_GER[e]] == e` for every English word `e` |
| Translate.TableRoundTrip | utils/translate.py:21-30 | the two round trips for the tables loaded from a whole well-formed file |
| Translate.RepeatedEnglishBreaksRoundTrip | utils/translate.py:27-29 | with two German words for one English word, the first German word does not come back |
| Translate.TranslateFields | utils/translate.py:46-61 | the new dict's keys are exactly the new names of the input keys (`"parameters"` unchanged, others through the function), each once |
| Translate.TranslateValue | utils/translate.py:53-59 | a dict stays a dict and a list stays a list of the same length; scalars, empty lists and lists whose first entry is not a dict (such as `["C"]`) are returned unchanged |
| Translate.TranslateItems | utils/translate.py:56-59 | a translated list of dicts has the input's length and holds only dicts, and so does the input |
| Translate.Translate | utils/translate.py:35-61 | the loop over `d.items()` builds the dict `TranslateFields` describes, or stops with the same error; the input is a value and is not changed |
| Translate.TranslateNested | utils/translate.py:53-59 | a mapping value is translated, a list whose first entry is a dict is translated entry by entry, and any other value is kept |
| Translate.TranslateList | utils/translate.py:56-59 | the appended list is `TranslateItems` of the input, or its first error |
| Translate.FieldsFailurePrefix | utils/translate.py:47-60 | an error in the first entries is the error of the whole call |
| Translate.ItemsFailurePrefix | utils/translate.py:58-59 | an error in the first list entries is the error of the whole list |
| Translate.TranslatedEntry | utils/translate.py:49-60 | an entry that no later entry shadows ends up under its new name: the `"parameters"` value verbatim, any other value translated recursively |
| Translate.TranslatedFieldsSucceed | utils/translate.py:47-60 | a dict translates exactly when the value of every entry other than `"parameters"` translates |
| Translate.TranslatedListSucceeds | utils/translate.py:56-59 | a list of dicts translates exactly when each entry is a dict that translates |
| Translate.TranslatedListEntries | utils/translate.py:57-59 | entry `i` of the translated list is entry `i` of the input, translated: order and length are kept |
| Translate.ParametersKept | utils/translate.py:49-51 | with unique keys, if no other key is renamed to `"parameters"`, the output's `"parameters"` value is the input's |
| Translate.FieldsRoundTrip | utils/translate.py:35-61 | when `g` undoes `f` on every renamed key, translating with `f` then `g` gives the dict back |
| Translate.ValueRoundTrip | utils/translate.py:53-59 | the same round trip for a single value |
| Translate.ItemsRoundTrip | utils/translate.py:56-59 | the same round trip for a list of dicts |
| Translate.UnknownWordsKept | utils/translate.py:97-98 | replacing words the message table does not know leaves the message as it was |
| Translate.UntranslatableMessageKept | utils/translate.py:97-98 | if no word of a message is in the message table, the new message equals the original |
| Translate.ReplaceEachWord | utils/translate.py:97-98 | the word loop applies `replace(w, translate_message_to_eng(w))` to the running message for each word of the original, in order |
| Translate.ViolationStep | utils/translate.py:95-98 | defines one turn of the violation loop: indexing a non-dict or a missing `"message"` raises, `"message_original"` is set before `.split` can fail on a non-string, and `"message"` is assigned only when the message has a word (stated by the two lemmas below) |
| Translate.ViolationStepRaises | utils/translate.py:95-98 | a violation's turn raises exactly when it is not a dict, has no `"message"`, or its message is not a string |
| Translate.ViolationStepSpec | utils/translate.py:96-98 | otherwise the violation keeps all keys and values except two: `"message_original"` holds the old message and `"message"` the translated one |
| Translate.TranslateViolation | utils/translate.py:96-98 | one turn of the loop gives the violation and error of `ViolationStep` |
| Translate.TurnsRaised | utils/translate.py:95-99 | once a turn raises, the rest of the list is not visited |
| Translate.ViolationsSucceed | utils/translate.py:95-99 | the loop passes exactly when every violation is translatable, and then each violation has had its own turn |
| Translate.ViolationsFirstError | utils/translate.py:95-99 | otherwise the error is the one of the first violation that is not translatable |
| Translate.WordForWord | utils/translate.py:93-101 | defines the whole call: the result body after the loop over the violations, and the error that ended it, if any |
| Translate.WordForWordOutcome | utils/translate.py:93-101 | on a list of violations: success exactly when every violation is a dict that has a `"message"` whose value is a string; the result keeps all keys and all values but the violations list; the list keeps its length, and each entry is its violation after its turn |
| Translate.WordForWordNoList | utils/translate.py:95 | an absent or non-list `"business_rules_violations"` leaves the result as it was; only an empty dict or string does not raise |
| Translate.ValidationResult.TranslateMessageWordForWord | utils/translate.py:93-101 | the result object ends up as `WordForWord` describes and is returned itself, or the first error is raised with the changes before it kept |

## Left out

- Reading the CSV file in `setup_translation_table` (utils/translate.py:24-25) is not modelled. `csv.reader`'s quoting and `skipinitialspace` are left out, and the loop takes the rows as already split into fields.
- The module-level table loading (utils/translate.py:113-114) is left out; the four tables are a parameter.
- `write_json`, the command line block (utils/translate.py:105-152) and the warning prints of the lookups are I/O and are not modelled.
- `save_graph` (utils/route_graph.py:62-70), the debug print (line 50), the timing (lines 37, 58) and the script block (lines 75-80) are rendering, output and clocks, and are not modelled.
- networkx is modelled only as far as its constructor and `add_edge` are used, so the graph's nodes are always exactly the endpoints of its edges. Nodes are a set, so networkx's node insertion order is not modelled.
- Route data is typed: every section has an integer `sequence_number`, and markers are strings. A missing `sequence_number` (a failing dict lookup) and markers of other types are outside the model.
- Route ids and path ids are integers, and the graph name applies `str` of an int to the route id. A string route id, whose `str` is the id itself, is outside the model.
- The registry and the edge map are Dafny maps, so the insertion order of the Python dict of graphs and of the networkx edges is not modelled; only which keys are present and what they map to.
- Edges carry only `abschnittsfolge_id`, as in the code. Sequence numbers and other section attributes on edges, an attribute-enrichment step, and descriptive malformed-input errors do not exist in the code and are not modelled.
- The code collapses sections that give the same (from, to) pair into one edge. So the number of edges is at most the number of sections, not always equal to it (`SharedEdgeCollapses`).
- JSON numbers are integers; floats are not modelled. `translate` sees JSON values only, so `isinstance(..., Mapping)` and `isinstance(v[0], dict)` agree, and every `MutableSequence` is a JSON list.
- `translate_message_word_for_word` updates each violation dict in place. The model computes the updated violation as a value and writes it back into the list, which gives the same final state. Two list entries that are the same Python dict (aliasing) are not modelled.
- Iterating a dict or string `"business_rules_violations"` is modelled only as far as its first turn: that turn fails on a key or character, which cannot be indexed by `"message"`.
- `translate_to_eng`/`translate_to_ger`/`translate_message_to_eng` read module globals; the model passes them the tables explicitly.
