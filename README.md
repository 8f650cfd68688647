# ICD-11 taxonomy crawler and structural translator, in Dafny

This project models the two core routines of the ICD-11 Danish translation
pipeline and proves properties of the model.

- **Crawler**: `ICD11_Client.get_icd11_taxonomy` walks the ICD-11 taxonomy
  breadth-first from its root. The loop follows these steps:
  - It takes the front child reference off the queue.
  - It derives the node id from the reference. The id is the last `/`-segment,
    or the segment before it when the last one is `unspecified` or `other`.
  - It skips ids it has already crawled.
  - It fetches the node. A failed fetch is dropped.
  - It appends the node to the result and the node's children to the back of the queue.
- **Translator**: `translate_elements` copies a list of taxonomy nodes. In
  each node, it rewrites only these natural-language fields:
  - five scalar text fields;
  - two kinds of labelled lists.

  Every other field is copied unchanged.

Modules:

| file | module | what |
|---|---|---|
| `wrappers.dfy` | `Wrappers` | `Option`, and a `Result` that works with `:-` |
| `json.dfy` | `Json` | JSON values as `json.loads` gives them. It also gives the Python operations the code uses on them: `d[k]`, `k in d`, truthiness, `for x in v` / `extend`, and `d[k] = v`. The exceptions they raise are `PyError`. |
| `paths.dfy` | `Paths` | `str.split("/")`, its inverse `"/".join`, and the node-id rule |
| `traverse.dfy` | `Traverse` | `MapAll`: a loop that appends one result per element and stops at the first exception |
| `crawler.dfy` | `Crawler` | The crawl, with its parts: one iteration (`Step`), the loop (`Run`), the whole crawl (`Crawl`, `Taxonomy`), and the imperative `Visit` / `GetTaxonomy`. It also has the loop invariants `Inv` and `Provenance`, the theorem that exactly the reachable ids are crawled, and the as-written variant from the finding below. |
| `translator.dfy` | `Translator` | The translation, as the reference function `TranslateAll` and the imperative `TranslateValue` / `TranslateElements`, plus the statements of what each field kind becomes |

How the model represents the two routines:

- **Remote API.** The crawler's remote API is a `Graph`, a finite map from node id to node. Calling `get_node(id)` with an id outside the map is a failed request.
- **Root node.** The root node, which `basic_information_linearization()` returns, is a parameter.
- **Translation.** The machine translation `translator.translate(text)[0]` is the function parameter `translate`.
- **has_crawled.** `has_crawled` is a Python dict used as a set. Dicts keep insertion order, so it is modelled as the sequence `visited`.
- **Requests.** The ids passed to `get_node`, in order, are given by the function `Requests`. This lets the retry behaviour be stated.

## Model

| member | source | states |
|---|---|---|
| `Json.Lookup` | src/icd11_client.py:71 | `key in d` holds exactly when the lookup finds a value, and the value found is stored under `key` |
| `Json.Get` | src/icd11_client.py:44-46 | `d[key]` succeeds exactly when `key` is in the dict, and otherwise raises `KeyError(key)` |
| `Json.Subscript` | src/translator.py:69 | `v[key]` succeeds exactly on a dict holding `key`; any other value raises `TypeError` |
| `Json.Iterate` | src/translator.py:73 | what `for x in v` visits: a list's items, a string's characters, a dict's keys; `None`, booleans and numbers raise `TypeError` |
| `Json.Assign` | src/icd11_client.py:46 | `d[key] = v`, used to state what the alias at line 46 leaves in the root: an existing key keeps its place and takes the new value, an absent key is appended at the end, and every other key keeps its value |
| `Paths.Split` | src/icd11_client.py:54 | `str.split("/")` never gives an empty list |
| `Paths.SplitJoin` | src/icd11_client.py:54 | the segments of any string contain no slash and join back to that string |
| `Paths.JoinSplit` | src/icd11_client.py:54 | splitting the join of slash-free segments gives those segments back |
| `Paths.SplitSegment` | src/icd11_client.py:54 | a slash-free string is a single segment |
| `Paths.SplitAppend` | src/icd11_client.py:54 | appending `/` and a slash-free segment appends exactly that segment |
| `Paths.LastSegmentOf` | src/icd11_client.py:44 | the root id is the text after the last slash of `@id` |
| `Paths.NodeIdPlain` | src/icd11_client.py:54 | a reference ending in an ordinary segment has that segment as its id |
| `Paths.NodeIdResidual` | src/icd11_client.py:55-56 | a reference ending in `unspecified` or `other` has the segment before it as its id |
| `Paths.NodeIdBareResidual` | src/icd11_client.py:55-56 | a bare `unspecified` or `other` has no segment before it, so it raises `IndexError` |
| `Paths.NodeIdIsSegment` | src/icd11_client.py:54-56 | a derived id is slash-free and is one of the reference's last two segments |
| `Paths.NodeIdExample` | src/icd11_client.py:55-56 | `.../123/other` has the id `123` |
| `Traverse.MapAll` | src/translator.py:72-88 | a loop that completes has one result per element |
| `Traverse.MapAllOk` | src/translator.py:72-88 | the loop completes with `ys` exactly when each element succeeds with the result at its position in `ys` |
| `Traverse.MapAllErr` | src/translator.py:72-88 | the loop fails exactly when some element fails, and then with the error of the first element that fails |
| `Traverse.MapAllSucceeds` | src/translator.py:72-88 | the loop completes exactly when every element succeeds |
| `Traverse.MapAllPrefixErr` | src/translator.py:72-88 | once a prefix has failed, the later elements are never reached |
| `Traverse.MapAllStep` | src/translator.py:72-88 | one more iteration either extends the results by the element's result or aborts the loop with the element's error |
| `Translator.TranslateValue` | src/translator.py:60-104 | the field loop's body, with its child loop, computes exactly the field's translation |
| `Translator.TranslateElements` | src/translator.py:48-108 | the nested loops compute exactly the reference translation `TranslateAll`, result or first error |
| `Translator.TranslatedTextSpec` | src/translator.py:67-70 | a text record translates exactly when it is a dict whose `@value` is a string, and becomes `{language: "da", value: translate(text)}`. A dict without `@value` raises `KeyError("@value")` |
| `Translator.PassThroughField` | src/translator.py:103-104 | a field outside the nine classified keys is copied unchanged |
| `Translator.ScalarFieldSpec` | src/translator.py:60-70 | the five scalar fields become the tagged translation of their text. They fail exactly when there is no text, and a missing `@value` gives `KeyError` |
| `Translator.RefChildSpec` | src/translator.py:74-87 | an item of a references list translates exactly when it has a label text and a `foundationReference`. It becomes `{label: tagged translation, foundationReference: copied, linearizationReference: copied or null}` |
| `Translator.LabelChildSpec` | src/translator.py:92-101 | an item of a labelled list translates exactly when it has a label text, and becomes `{label: tagged translation}` alone |
| `Translator.RefListSpec` | src/translator.py:71-88 | a `foundationChildElsewhere`/`exclusion` value becomes a list of the same length whose k-th item is the k-th item translated. It fails exactly when the value is not iterable or some item is malformed |
| `Translator.LabelListSpec` | src/translator.py:89-102 | an `inclusion`/`indexTerm` value becomes a list of the same length with only the translated labels. It fails exactly when the value is not iterable or some item lacks a label text |
| `Translator.TranslateElementSpec` | src/translator.py:58-104 | a node translates exactly when each of its fields does. The result has the same keys in the same order, each value is its field's translation, and distinct keys stay distinct |
| `Translator.TranslateAllOk` | src/translator.py:52-108 | the output has the input's length and order, and its i-th node is the translation of the i-th input node |
| `Translator.TranslateAllErr` | src/translator.py:52-108 | the call fails exactly when some node fails, with the error of the first node that fails |
| `Translator.TranslatedFieldAt` | src/translator.py:59-104 | in the output, the j-th field of the i-th node keeps its key and holds that field's translation. An unclassified field is copied |
| `Translator.MalformedFieldAborts` | src/translator.py:69 | one field missing its expected sub-key makes the whole call fail |
| `Translator.TitleExample` | src/translator.py:60-70 | `{title: {"@value": "Hello"}, foo: 42}` becomes `{title: {language: "da", value: "Hej"}, foo: 42}` when `translate("Hello")` is `"Hej"` |
| `Translator.ExclusionExample` | src/translator.py:82-85 | an exclusion item without `linearizationReference` gets an explicit null one |
| `Translator.MissingValueExample` | src/translator.py:69 | a title record without `@value` aborts the call with `KeyError("@value")` |
| `Crawler.Start` | src/icd11_client.py:42-48 | before the loop, `data` is `[root]`, the root's id is its only crawled id, and the counter is 0. If `@id` is missing the result is `KeyError`; if it is not a string, `AttributeError`; if `child` is missing, `KeyError`. A list child is the queue. Any other child value works only when it is falsy, and then the queue is empty |
| `Crawler.StepAdvances` | src/icd11_client.py:49-77 | each iteration takes the front reference and keeps the rest in order at the front (FIFO), and only appends to `data` and the crawled ids. It also either crawls a new id of the graph or shortens the queue, which is the termination measure |
| `Crawler.StepNotText` | src/icd11_client.py:54 | a non-string reference raises `AttributeError` |
| `Crawler.StepNoId` | src/icd11_client.py:54-56 | a reference without an id aborts the crawl with that error |
| `Crawler.StepSkipsVisited` | src/icd11_client.py:58-60 | a reference to a crawled id is dropped without a request, and nothing else changes |
| `Crawler.StepFetchFails` | src/icd11_client.py:62-68 | a failed request is made and dropped: `data`, the crawled ids and the counter are unchanged |
| `Crawler.StepChildrenFail` | src/icd11_client.py:70-72 | a fetched node whose `child` value is not iterable aborts the crawl |
| `Crawler.StepFetched` | src/icd11_client.py:63-77 | a fetched node is appended to `data`, its children to the back of the queue in order, and its id to the crawled ids, and the counter goes up by one |
| `Crawler.OnlyFetchesChangeState` | src/icd11_client.py:58-77 | an iteration changes more than the queue exactly when it sends a request that succeeds |
| `Crawler.StartInv` | src/icd11_client.py:42-48 | the invariant holds before the loop |
| `Crawler.DropPreservesInv` | src/icd11_client.py:58-68 | dropping a resolved front reference keeps the invariant |
| `Crawler.FetchPreservesInv` | src/icd11_client.py:62-77 | crawling a new node keeps the invariant |
| `Crawler.StepPreservesInv` | src/icd11_client.py:49-77 | every successful iteration keeps the invariant |
| `Crawler.RunPreservesInv` | src/icd11_client.py:49-79 | the loop keeps the invariant until it ends, and it ends with an empty queue |
| `Crawler.CrawlSpec` | src/icd11_client.py:35-81 | a crawl that completes returns the root first. It has one crawled id per node, and the counter counts all nodes but the root. No id is crawled twice, and every other node is the graph's node for its id. Each id crawled after the root is named by a reference of the root or of a node crawled before it. Every reference held by the root or a crawled node names an id that was crawled or that the graph lacks |
| `Crawler.CrawledExactly` | src/icd11_client.py:35-81 | an id other than the root's is crawled if and only if the graph has it and a reference of the root or of a crawled node names it. With no id crawled twice, the result is the root plus one node per such id |
| `Crawler.EmittedAppend` | src/icd11_client.py:72 | crawling one more node queues its children after everything queued before |
| `Crawler.EmittedPrefix` | src/icd11_client.py:49-77 | the references queued by an early part of the crawl are a prefix of those the whole crawl queued |
| `Crawler.EmittedResolved` | src/icd11_client.py:46-72 | when the root's references and every crawled node's references are resolved, so is everything the crawl queued |
| `Crawler.StartProvenance` | src/icd11_client.py:42-48 | before the loop, the queue is all that was queued and only the root is crawled |
| `Crawler.DropProvenance` | src/icd11_client.py:51-68 | dropping the front reference leaves the queue a suffix of everything queued, and the crawled ids keep their sources |
| `Crawler.FetchQueueLeft` | src/icd11_client.py:51-72 | after a node is crawled, the queue is still what is left of everything queued, the node's children last |
| `Crawler.FetchCrawledNamed` | src/icd11_client.py:51-75 | a newly crawled id is named by the front reference, which was queued before the node was crawled |
| `Crawler.FetchProvenance` | src/icd11_client.py:51-77 | crawling a new node keeps the provenance of the queue and of the crawled ids |
| `Crawler.StepProvenance` | src/icd11_client.py:49-77 | every successful iteration keeps the provenance |
| `Crawler.RunProvenance` | src/icd11_client.py:49-79 | the loop keeps the provenance to its end |
| `Crawler.LeafThenMissing` | src/icd11_client.py:62-68 | a failed request costs only its own node: two new references, one to a leaf and one to a missing id, give one more node, and the crawl completes |
| `Crawler.ExampleIds` | src/icd11_client.py:44-54 | `r` has the root id `r`, and `a/x` has the node id `x` |
| `Crawler.RetryRequests` | src/icd11_client.py:59-68 | two references to a missing id request it twice |
| `Crawler.RetryExample` | src/icd11_client.py:46-68 | with the graph empty, the root's two references to `x` make two requests, and the crawl returns the root alone |
| `Crawler.Visit` | src/icd11_client.py:51-77 | the loop body, on the loop's variables, computes exactly one iteration `Step` |
| `Crawler.GetTaxonomy` | src/icd11_client.py:35-81 | the loop computes exactly the reference crawl `Taxonomy`, result or exception, and a result starts with the root |
| `Crawler.RootAsReturned` | src/icd11_client.py:46 | the root as the source returns it keeps its keys |
| `Crawler.TaxonomyAsWritten` | src/icd11_client.py:46-81 | the result as the source computes it fails exactly when the corrected crawl fails. It has the same length, and it is the same from the second node on |
| `Crawler.RootChildrenLost` | src/icd11_client.py:46 | with a non-empty root child list, the first node of the as-written result has `child: []` and so differs from the root, while the corrected crawl returns the root intact |

## Left out

- HTTP, authentication, the API base URL and `basic_information_linearization` are network I/O. The root is a parameter and `get_node` is a finite map, which the model treats as deterministic.
- The `print` calls (the failure line and the progress line every 100 nodes) and the `tqdm` progress bar with its `set_description` are output only.
- The `Translator` class (tokenizer, model, device, beam and batch sizes) is a foreign library. `translate` is an opaque function. The model does not count how many times it is called or in what order.
- The `__main__` blocks (reading and writing JSON files, `unique_everseen`) and `file_handling.py` are file I/O and are not part of this model.
- JSON numbers are integers. The only modelled use of a number is its truthiness: `Truthy` is applied to the root's `child` at `while queue`. A float is stood for by an integer that is zero exactly when the float is.
- `Translator.TranslatedTextSpec`: an `@value` that is not a string is modelled as `TypeError`. The source would pass such a value, for example a list of strings, to the tokenizer, whose behaviour is not part of this model.
- `Translator.ScalarFieldSpec`, `Translator.RefChildSpec`, `Translator.LabelChildSpec`, `Translator.RefListSpec`, `Translator.LabelListSpec`: each inherits the same `TypeError` for an `@value` that is not a string.
- Dicts with a repeated key: `Obj` does not require distinct keys. On a repeated key `Lookup` takes the first entry, where `json.loads` would keep the last. Every dict the source builds or loads has distinct keys.
- `get_node` results are dicts. A node that is not a JSON object is not modelled.
- A root `child` that is a non-empty dict fails at `pop(0)` with `KeyError`. Python's key there is the integer 0; the model's `KeyError` carries the string `"0"`.
- The stray global `icd11_client`, which the method uses in place of `self`, is read as `self`.
- Mutation in place: `queue.pop(0)` and `queue.extend` are modelled as new sequence values. The single piece of aliasing that shows in the result is modelled separately, as the finding below.
- `Crawler.RetryRequests`: a failed id is never recorded in `has_crawled`. So every later reference to it is requested again, under any path (src/icd11_client.py:59-68).

## Findings

| source | as written | input that shows it | evidently intended | confidence | as-written member | corrected member |
|---|---|---|---|---|---|---|
| src/icd11_client.py:46 | `queue = root["child"]` makes the queue the root's own child list. The loop's `pop(0)` and `extend` consume it, so the returned `data[0]` has `child: []` | a root `{"@id": ".../r", "child": [".../1"]}` whose crawl completes | the returned root keeps its child list, for example with `queue = list(root["child"])` | not executed; medium | `Crawler.TaxonomyAsWritten`, `Crawler.RootChildrenLost` | `Crawler.Taxonomy`, `Crawler.GetTaxonomy` |
