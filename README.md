# XML splitter — a Dafny model

`XMLSplitter` splits one large aggregate XML document into standalone
documents, one for each record. It reads the document once, as a stream of
StAX events. It skips the root start tag and then counts depth: a start tag
adds one and an end tag takes one away. A start tag that passes the record
test (an optional depth and an optional qualified name) opens a new output
file. The extraction loop then copies events from the same reader into that
file. It stops at the end tag with the record's name, provided that tag is
read with the counter back at the record's starting depth. This depth test
keeps a descendant with the same name from ending the record. After the
record, the scan goes on from the next event.

The model has five modules:

- `XmlEvents` (`xml_events.dfy`) holds the event alphabet: document
  start/end, start and end tags carrying a `QName` (namespace URI and local
  part, `""` for no namespace), and `Other` for text, comments and the like.
  It also holds the depth counter (`Step`, and `Track` for a run of events),
  well-nesting (`Nest`), and an element tree `Node` with its serialization.
- `Matching` (`matching.dfy`) builds the record name (`constructQName`),
  resolves the criteria (`checkParams`) and defines the record test.
- `Engine` (`engine.dfy`) states the splitting run as functions over the
  event sequence: `TagIndex` skips to the root, `Drain` is the extraction
  loop, `Scan` is the outer loop and `SplitSpec` is the whole run.
  `OutputPath` joins the output path.
- `Reference` (`reference.dfy`) is an independent definition of what a
  split should produce on a well-formed document (`Records`, over the element
  tree). `SplitWellFormed` proves that the run produces exactly that.
- `Splitter` (`splitter.dfy`) holds the imperative model. `EventReader` is
  the reader, a cursor over the event sequence. `XMLSplitter` is the class,
  with the configuration fields, the setters, `ConstructQName`,
  `CheckParams` and the `split()` loops as methods. Each method is proved
  against the `Engine` functions.
- `SplitExamples` (`examples_split.dfy`) holds lemmas that prove the
  result of a whole split on small documents.

What the code does, and the model with it:

- There is one element option and one namespace option (lines 21-25), so
  the record name is at most one qualified name.
- The depth test at line 144 compares the required depth with the counter
  minus one after the start tag is counted, which is the counter before the
  tag. With the default of 1, the records are the root's children.
- The scan loop reads and counts the root's end tag before it sees the
  document end (line 134), so the counter drops to 0.
- The model's reader is a plain event sequence, which may end anywhere.
  A StAX reader always ends its stream with a document end, and on
  truncated or malformed input it throws instead. Two lemmas are about
  sequences that a StAX reader never delivers. They show what the loops
  do there. When the sequence ends inside a record, the extraction loop
  (lines 178-194) stops at `hasNext()` and writes the events read so far
  with a document end (`SplitExamples.TruncatedRecordIsWritten`). When the
  record's start tag is the last event, the read at line 174 finds nothing
  (`SplitExamples.RecordAtLastEventFails`).

## Model

| member | source | states |
|---|---|---|
| Matching.RecordQName | src/main/java/com/marklogic/ps/XMLSplitter.java:90-105 | a record name exists iff the element option is present and non-empty; with a non-empty namespace option the element string lands in the namespace URI and the namespace string in the local part (constructor arguments as written); otherwise the element is the local part in no namespace |
| Matching.IntendedRecordQName | src/main/java/com/marklogic/ps/XMLSplitter.java:94 | corrected name: the element option is the local part and the namespace option the namespace URI |
| Matching.Resolve | src/main/java/com/marklogic/ps/XMLSplitter.java:107-115 | the name criterion is the constructed name; a supplied depth is kept; with neither a name nor a depth the depth becomes 1, so at least one criterion is always active |
| Matching.DefaultMatchesRootChildren | src/main/java/com/marklogic/ps/XMLSplitter.java:111-114 | with no element option and no depth, a start tag begins a record iff the counter before it is 1 (a child of the root) |
| Matching.SwappedRecordNameMisses | src/main/java/com/marklogic/ps/XMLSplitter.java:94 | as written, with a non-empty namespace option the element `local` in namespace `ns` never passes the record test when the two strings differ |
| Matching.SwappedRecordNameExample | src/main/java/com/marklogic/ps/XMLSplitter.java:94 | for element option foo and namespace urn:a, the tag {foo}urn:a passes and {urn:a}foo does not |
| Matching.IntendedRecordNameMatches | src/main/java/com/marklogic/ps/XMLSplitter.java:94 | with the corrected name, at the required depth, a start tag passes iff its name is exactly (ns, local) |
| XmlEvents.Step | src/main/java/com/marklogic/ps/XMLSplitter.java:140-141 | the depth update after each read (also at lines 175-176 and 192-193): a start tag adds one, an end tag takes one away, every other event leaves the counter alone (definition); `Track` folds it over a run of events |
| Matching.Matches | src/main/java/com/marklogic/ps/XMLSplitter.java:143-155 | the record test (definition): a start tag whose counter before it equals the required depth, if any, and whose name equals the record name, if any; its lemmas `DefaultMatchesRootChildren`, `SwappedRecordNameMisses` and `IntendedRecordNameMatches` state what it admits |
| Engine.Closes | src/main/java/com/marklogic/ps/XMLSplitter.java:179-183 | the terminator test (definition): an end tag with the record's name, read with the counter back at the record's start depth; `DrainCharacterized` and `DrainStopsAt` prove extraction stops exactly at the first such event |
| Engine.Scan | src/main/java/com/marklogic/ps/XMLSplitter.java:134-200 | the outer loop over the events after the root start tag; it never reports a missing root; `ScanFragments` proves every fragment's shape and `Reference.ScanNodes` what it writes on serialized elements |
| Engine.SplitSpec | src/main/java/com/marklogic/ps/XMLSplitter.java:117-200 | the whole run: it fails with NoRootElement exactly when the root skip finds no start tag, and then writes nothing; `Reference.SplitWellFormed` states its result on well-formed documents |
| Engine.TagIndex | src/main/java/com/marklogic/ps/XMLSplitter.java:126 | the root skip lands on a start tag, and every event it passes over is a document start or non-tag content |
| Engine.Drain | src/main/java/com/marklogic/ps/XMLSplitter.java:174-195 | the extraction loop stops strictly after where it starts and within the input; the copied events are exactly the contiguous slice read |
| Engine.DrainCharacterized | src/main/java/com/marklogic/ps/XMLSplitter.java:178-194 | extraction stops at the first event that is an end tag with the record's name read with the counter at the start depth, or at the end of input; no earlier event closes the record; the counter there counts every event read |
| Engine.DrainStopsAt | src/main/java/com/marklogic/ps/XMLSplitter.java:178-194 | converse: any position where the record closes (or input ends) with no earlier closing event is where extraction stops, with that counter and that slice copied |
| Engine.ScanFragments | src/main/java/com/marklogic/ps/XMLSplitter.java:170-198 | every written fragment begins with a document start and a start tag and ends with a document end; the scan fails only with NoSuchElement |
| Engine.OutputPath | src/main/java/com/marklogic/ps/XMLSplitter.java:160-163 | the path is the directory, then a separator exactly when the directory is non-empty, then the file name |
| Reference.DrainNested | src/main/java/com/marklogic/ps/XMLSplitter.java:178-186 | after a record's start tag, a well-nested body followed by the record's end tag is copied whole, however often the record's name recurs inside it; the counter returns to the start depth |
| Reference.ScanRecordElement | src/main/java/com/marklogic/ps/XMLSplitter.java:143-198 | at a matching serialized element, the scan writes the whole element as one standalone fragment and resumes after its end tag at the same depth |
| Reference.ScanNode | src/main/java/com/marklogic/ps/XMLSplitter.java:134-198 | scanning over a serialized node writes exactly that node's records (a matching element whole, else the records among its children one level deeper) and leaves the counter unchanged |
| Reference.ScanNodes | src/main/java/com/marklogic/ps/XMLSplitter.java:134-198 | scanning over serialized siblings writes their records in document order |
| Reference.TagIndexSkips | src/main/java/com/marklogic/ps/XMLSplitter.java:126 | the root skip passes every skippable event and stops at the first start tag |
| Reference.ScanSkipsOther | src/main/java/com/marklogic/ps/XMLSplitter.java:153-155 | non-tag content is passed over without writing anything |
| Reference.SplitWellFormed | src/main/java/com/marklogic/ps/XMLSplitter.java:117-201 | on a well-formed document the run finishes without failure and writes exactly the records of the root's children at depth 1, each a standalone document holding the whole element; descendants of a record are not split out |
| Reference.RecordsAreDocuments | src/main/java/com/marklogic/ps/XMLSplitter.java:170-198 | every record is a document start, a start tag, a well-nested body, the matching end tag and a document end, and carries the record name whenever a name criterion is set |
| SplitExamples.RecursiveRecordExample | src/main/java/com/marklogic/ps/XMLSplitter.java:181-186 | `<root><r><x><r>…</r></x></r></root>` split on r at depth 1 gives one document holding the nested r |
| SplitExamples.DepthOnlyExample | src/main/java/com/marklogic/ps/XMLSplitter.java:143-146 | with depth 2 and no name, the root's grandchildren are the records whatever their names |
| SplitExamples.TruncatedRecordIsWritten | src/main/java/com/marklogic/ps/XMLSplitter.java:178-198 | on an event sequence that ends inside a record, which a StAX reader never delivers, the loop exits on `hasNext()` false and writes the events read so far plus a document end, without failure |
| SplitExamples.RecordAtLastEventFails | src/main/java/com/marklogic/ps/XMLSplitter.java:174 | on an event sequence whose last event is a record start tag, which a StAX reader never delivers, the read at line 174 finds nothing and the run stops with NoSuchElement |
| SplitExamples.NoRootExample | src/main/java/com/marklogic/ps/XMLSplitter.java:126 | a document whose first tag is an end tag has no root: NoRootElement |
| SplitExamples.NamespacedRecordMissed | src/main/java/com/marklogic/ps/XMLSplitter.java:94 | as written, element r with namespace urn:a writes nothing for `<root><a:r/></root>` |
| SplitExamples.NamespacedRecordFound | src/main/java/com/marklogic/ps/XMLSplitter.java:94 | with the corrected name, the same options write the one r element |
| Splitter.EventReader.HasNext | src/main/java/com/marklogic/ps/XMLSplitter.java:134 | the loop guard `hasNext()` (definition): an event is left after the cursor |
| Splitter.EventReader.Peek | src/main/java/com/marklogic/ps/XMLSplitter.java:134 | `peek()` (definition): the event at the cursor, without moving it; the scan loop stops when it is the document end |
| Splitter.EventReader.NextEvent | src/main/java/com/marklogic/ps/XMLSplitter.java:139 | reads the event at the cursor and advances by one |
| Splitter.EventReader.NextTag | src/main/java/com/marklogic/ps/XMLSplitter.java:126 | leaves the cursor just past the root start tag found by `TagIndex`, or reports that there is none |
| Splitter.XMLSplitter.constructor | src/main/java/com/marklogic/ps/XMLSplitter.java:47-55 | fresh configuration: no paths or names, depth -1 with no depth criterion, no record name |
| Splitter.XMLSplitter.SetInputFilePath | src/main/java/com/marklogic/ps/XMLSplitter.java:57-63 | a missing path becomes the empty string, otherwise it is stored |
| Splitter.XMLSplitter.SetAggregateRecordElement | src/main/java/com/marklogic/ps/XMLSplitter.java:65-67 | stores the element option as given |
| Splitter.XMLSplitter.SetAggregateRecordNamespace | src/main/java/com/marklogic/ps/XMLSplitter.java:69-71 | stores the namespace option as given |
| Splitter.XMLSplitter.SetOutputDirectoryPath | src/main/java/com/marklogic/ps/XMLSplitter.java:73-79 | a missing directory becomes the empty string, otherwise it is stored |
| Splitter.XMLSplitter.SetAggregateDepth | src/main/java/com/marklogic/ps/XMLSplitter.java:81-89 | no depth clears the criterion (value -1); a depth sets it |
| Splitter.XMLSplitter.ConstructQName | src/main/java/com/marklogic/ps/XMLSplitter.java:90-105 | the record name field becomes `RecordQName` of the options, and its flag says whether there is one |
| Splitter.XMLSplitter.CheckParams | src/main/java/com/marklogic/ps/XMLSplitter.java:107-115 | the criteria the fields hold afterwards are `Resolve` of the options and the depth held before |
| Splitter.XMLSplitter.ExtractRecord | src/main/java/com/marklogic/ps/XMLSplitter.java:170-198 | fails, reading nothing, iff no event follows the record's start tag; otherwise the written fragment, the cursor and the counter are those of `Drain` |
| Splitter.XMLSplitter.CopyRecord | src/main/java/com/marklogic/ps/XMLSplitter.java:178-195 | the copy loop writes exactly the events `Drain` copies and leaves the cursor and the counter where `Drain` stops |
| Splitter.XMLSplitter.Split | src/main/java/com/marklogic/ps/XMLSplitter.java:117-131 | resolves the criteria; the failure is that of `SplitSpec`, and file k holds its k-th fragment, named by the k-th unique name in the output directory |
| Splitter.XMLSplitter.WriteRecords | src/main/java/com/marklogic/ps/XMLSplitter.java:131-200 | the scan loop's failure and files are those of `Scan` from the cursor with the counter at 1 |

## Findings

| source | as written | input that shows it | evidently intended | confidence | as-written member | corrected member |
|---|---|---|---|---|---|---|
| src/main/java/com/marklogic/ps/XMLSplitter.java:94 | `new QName(aggregateRecordElement, aggregateRecordNamespace)` passes the element name as the namespace URI and the namespace as the local part | element option r, namespace option urn:a, document `<root><a:r xmlns:a="urn:a"/></root>`: no file is written | `new QName(namespace, element)`, so the element r in namespace urn:a is the record | not executed | Matching.RecordQName (shown by Matching.SwappedRecordNameMisses and SplitExamples.NamespacedRecordMissed) | Matching.IntendedRecordQName (proved by Matching.IntendedRecordNameMatches and SplitExamples.NamespacedRecordFound) |

`XMLSplitter` keeps the name construction as written, because that is what
the class does. The engine takes its criteria as a parameter, so the
corrected name is proved to select the record in the same split (`SplitExamples.NamespacedRecordFound`).

## Left out

- The command-line entry point (`main`, lines 14-45) and its option parsing are not modelled. `Integer.parseInt` failures are left out too: `SetAggregateDepth` receives the depth already parsed.
- File input is not modelled: the document arrives as an event sequence, `inputFilePath` is kept as a field only, and the XML tokenizer is not part of this model.
- File output is not modelled either: writer creation, serialization, flushing and closing are left out. The content of file k is its event sequence.
- The file is created (line 166) before the record's first content event is read (line 174). When that read fails (on a sequence no StAX reader delivers), the model writes no file, where the code would leave an empty file behind.
- Tokenizer errors are not modelled. On truncated or malformed input, the StAX reader throws an XMLStreamException from `hasNext()`, `nextEvent()` or `nextTag()`. The run then stops with the current output file still open and no document end written.
- `UUID.randomUUID()` becomes the parameter `uuids`: file k is named `uuids(k)` followed by ".xml". Uniqueness of the names is not modelled.
- `File.separator` is the constant "/".
- Text, whitespace, comments, processing instructions and other non-tag events are one event kind, `Other`. Attributes and namespace declarations are not modelled.
- Splitter.EventReader.NextTag skips every `Other` event before the root. The StAX `nextTag` throws there on non-whitespace text and on a DOCTYPE; the model does not.
- `QName.equals` is structural equality on namespace URI and local part; prefixes are not modelled.
- Splitter.XMLSplitter.Split requires an output directory. With the field still null, the path join at line 162 throws; that case is not modelled.
- The depth counter is an unbounded integer. The 32-bit wrap-around of Java's `int` would need more than 2^31 levels of nesting and is not modelled.
