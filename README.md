# Query compilation and document translation for two JNoSQL drivers

This project models two parts of the Eclipse JNoSQL database drivers in
Dafny and proves properties of them.

- **Elasticsearch query conversion** (`query_converter.dfy`, module
  `QueryConverter`). A document query has a collection name and an optional
  condition tree. It becomes a boolean query tree. Comparisons become
  `term`, `match`, `range` or `query_string` clauses. AND, OR and IN become
  left-nested `must` or `should` nodes, and NOT becomes `must_not`. The
  index mapping decides whether an equality is an exact `term` query or an
  analysed `match` query. A dotted field path is looked up one object level
  at a time.
- **ArangoDB document translation** (`arangodb_util.dfy`, module
  `ArangoDBUtil`). Reading turns a stored document into a `DocumentEntity`.
  Each property becomes a Document, classified by its structure. The
  `_key`, `_id` and `_rev` Documents come last, and the collection name is
  the part of the id before its first `/`. Writing turns an entity's
  Documents back into the property map that the ArangoDB client stores.
- **Shared value universe** (`values.dfy`, module `Values`). A Java object
  is modelled by its structure: a scalar, a map (its entries in iteration
  order), an iterable, or a generic Document. This module also holds
  `Option`, `Result` (a value, or the exception the Java code throws) and
  `ValueUtil.convertToList`.

Each Java exception is an `Err` value:

- an empty IN value list, or AND/OR without children;
- an operator outside the converter's switch;
- a duplicate Document name reaching `Collectors.toMap`;
- an id made only of slashes, whose `split("/")` has no element 0.

Behaviour of the code worth knowing:

- **Writing restores only one level of nesting.** `getMap` stores each
  Document's value through `ValueUtil.convert`, which does not recurse.
  Writing therefore restores only the outer level of nesting.
  `NestedMapNotRestored` proves that a map inside a map does not come back
  as it was stored.
- **The `nonNull` filter drops nothing.** AND and OR filter out children
  that compile to nothing, but `getCondition` never returns null. Every branch
  either builds a clause or throws. So no child is ever dropped, and a
  failing child makes the whole query fail.
- **One error message.** The code's message for an empty IN list is the
  same as for an empty AND ("An and condition cannot be empty"). The
  model uses one `EmptyCondition` error for every empty case.
- **No collection-name hint.** The collection name always comes from the
  id. The code takes no hint.
- **The last Document wins.** When two Documents share a name, the later
  one wins in the written map. This is how the synthetic `_key`, `_id` and
  `_rev` fields, appended last, win over user fields.

## Model

| member | source | states |
|---|---|---|
| QueryConverter.SupportTermQuery | jnosql-elasticsearch/src/main/java/org/eclipse/jnosql/databases/elasticsearch/communication/QueryConverter.java:90-103 | the dotted-path lookup; specified by `SupportUndotted`, `SupportDotted`, `SupportMatchesKeywordPath` and `SupportIsKeywordPath` |
| QueryConverter.SupportUndotted | jnosql-elasticsearch/src/main/java/org/eclipse/jnosql/databases/elasticsearch/communication/QueryConverter.java:101-102 | a path without a dot supports a term query exactly when it is declared at this level as a keyword (a missing field gives false) |
| QueryConverter.SupportDotted | jnosql-elasticsearch/src/main/java/org/eclipse/jnosql/databases/elasticsearch/communication/QueryConverter.java:91-99 | `head.rest`, split at its first dot, is supported exactly when `head` is an object field whose own properties support `rest`; a missing or non-object `head` gives false |
| QueryConverter.SupportMatchesKeywordPath | jnosql-elasticsearch/src/main/java/org/eclipse/jnosql/databases/elasticsearch/communication/QueryConverter.java:90-103 | the dotted lookup agrees with an independent segment-wise definition: every segment but the last is an object field and the last is a keyword |
| QueryConverter.SupportIsKeywordPath | jnosql-elasticsearch/src/main/java/org/eclipse/jnosql/databases/elasticsearch/communication/QueryConverter.java:90-103 | for every attribute, term support is the segment-wise definition applied to the attribute's dot-separated pieces |
| Values.JoinPieces | jnosql-elasticsearch/src/main/java/org/eclipse/jnosql/databases/elasticsearch/communication/QueryConverter.java:93-97 | splitting at every dot loses nothing: no piece holds a dot, and joining the pieces with dots gives the attribute back |
| QueryConverter.NestedKeywordExample | jnosql-elasticsearch/src/main/java/org/eclipse/jnosql/databases/elasticsearch/communication/QueryConverter.java:92-97 | `address.city` is supported when `address` is an object field declaring `city` as a keyword |
| QueryConverter.MissingLeafExample | jnosql-elasticsearch/src/main/java/org/eclipse/jnosql/databases/elasticsearch/communication/QueryConverter.java:92-99 | `address.unknown` is not supported when the object field does not declare `unknown` |
| QueryConverter.NonKeywordExample | jnosql-elasticsearch/src/main/java/org/eclipse/jnosql/databases/elasticsearch/communication/QueryConverter.java:101-102 | a declared field that is not a keyword is not supported |
| QueryConverter.OperandsOfReduce | jnosql-elasticsearch/src/main/java/org/eclipse/jnosql/databases/elasticsearch/communication/QueryConverter.java:173-175 | the left fold of binary `bool` nodes keeps every operand, in order: reading the chain back gives the input list |
| QueryConverter.GetCondition | jnosql-elasticsearch/src/main/java/org/eclipse/jnosql/databases/elasticsearch/communication/QueryConverter.java:115-208 | the switch over condition kinds, with its comparison cases (`Comparison`), its AND and OR cases (`Junction`, folding with `Reduce`) and NOT; specified by `CompileSucceedsIff`, `CompileErrors`, `EqualsClause`, `RangeAndLikeIgnoreMapping`, `InClauses`, `JunctionClauses`, `NotClause` and `MappingOnlyChoosesTermOrMatch` |
| QueryConverter.GetConditions | jnosql-elasticsearch/src/main/java/org/eclipse/jnosql/databases/elasticsearch/communication/QueryConverter.java:178-182 | the children compile exactly when each does; the results are the children's clauses in order; otherwise the error is the first failing child's |
| QueryConverter.CompileSucceedsIff | jnosql-elasticsearch/src/main/java/org/eclipse/jnosql/databases/elasticsearch/communication/QueryConverter.java:115-208 | a condition compiles, under any mapping, exactly when it has no BETWEEN, no empty IN list and no AND or OR without children anywhere in its tree |
| QueryConverter.CompileErrors | jnosql-elasticsearch/src/main/java/org/eclipse/jnosql/databases/elasticsearch/communication/QueryConverter.java:115-208 | a failure is the empty-condition error or the unsupported-BETWEEN error, and nothing else |
| QueryConverter.EqualsClause | jnosql-elasticsearch/src/main/java/org/eclipse/jnosql/databases/elasticsearch/communication/QueryConverter.java:119-131 | EQUALS always compiles, to a `term` query exactly when the mapping supports one for the field and to a `match` query otherwise, carrying the field and the value |
| QueryConverter.RangeAndLikeIgnoreMapping | jnosql-elasticsearch/src/main/java/org/eclipse/jnosql/databases/elasticsearch/communication/QueryConverter.java:132-157 | the four comparisons give a range with the matching bound, LIKE gives a query string allowing leading wildcards, and neither depends on the mapping |
| QueryConverter.InClauses | jnosql-elasticsearch/src/main/java/org/eclipse/jnosql/databases/elasticsearch/communication/QueryConverter.java:158-176 | IN fails exactly on an empty value list; otherwise its `should` chain holds one term-or-match clause per value, in order, and one value gives that clause alone |
| QueryConverter.JunctionClauses | jnosql-elasticsearch/src/main/java/org/eclipse/jnosql/databases/elasticsearch/communication/QueryConverter.java:177-197 | AND and OR compile exactly when there is a child and every child compiles; no children is the empty-condition error; the `must` (AND) or `should` (OR) chain holds the children's clauses in order |
| QueryConverter.NotClause | jnosql-elasticsearch/src/main/java/org/eclipse/jnosql/databases/elasticsearch/communication/QueryConverter.java:198-204 | NOT compiles exactly when its child does, to `must_not` of the child's clause, and otherwise fails with the child's error |
| QueryConverter.MappingOnlyChoosesTermOrMatch | jnosql-elasticsearch/src/main/java/org/eclipse/jnosql/databases/elasticsearch/communication/QueryConverter.java:115-208 | two mappings that agree on term support for every EQUALS and IN field compile the condition identically |
| QueryConverter.BinaryJunction | jnosql-elasticsearch/src/main/java/org/eclipse/jnosql/databases/elasticsearch/communication/QueryConverter.java:177-197 | AND (OR) of two compiling children is exactly one `must` (`should`) node over their clauses |
| QueryConverter.Select | jnosql-elasticsearch/src/main/java/org/eclipse/jnosql/databases/elasticsearch/communication/QueryConverter.java:58-82 | without a condition the query is the collection clause alone; with one, it succeeds exactly when the condition compiles, giving `must` of the collection clause and the compiled condition, and otherwise fails with the condition's error |
| QueryConverter.PeopleCondition | jnosql-elasticsearch/src/main/java/org/eclipse/jnosql/databases/elasticsearch/communication/QueryConverter.java:115-208 | `age = 30 AND (city = NYC OR city = LA)`, with `city` a keyword and `age` not, compiles to `must(match age, should(term city, term city))` |
| QueryConverter.PeopleScenario | jnosql-elasticsearch/src/main/java/org/eclipse/jnosql/databases/elasticsearch/communication/QueryConverter.java:54-84 | the same query on collection `people` is `must(match @entity people, …)` |
| ArangoDBUtil.IsADocumentIterable | jnosql-arangodb/src/main/java/org/eclipse/jnosql/databases/arangodb/communication/ArangoDBUtil.java:129-133 | an iterable whose every element is a map; specified by `ClassesOverlapOnlyWhenEmpty` and `ReadShapes` |
| ArangoDBUtil.IsSubDocument | jnosql-arangodb/src/main/java/org/eclipse/jnosql/databases/arangodb/communication/ArangoDBUtil.java:162-165 | an iterable whose every element is a Document; specified by `ClassesOverlapOnlyWhenEmpty` and `ConvertShapes` |
| ArangoDBUtil.IsSubDocumentList | jnosql-arangodb/src/main/java/org/eclipse/jnosql/databases/arangodb/communication/ArangoDBUtil.java:157-160 | an iterable whose every element is an iterable of Documents; specified by `ClassesOverlapOnlyWhenEmpty` and `ConvertShapes` |
| ArangoDBUtil.ClassesOverlapOnlyWhenEmpty | jnosql-arangodb/src/main/java/org/eclipse/jnosql/databases/arangodb/communication/ArangoDBUtil.java:129-165 | an iterable of maps, an iterable of Documents and an iterable of Document iterables are disjoint classes, except for the empty iterable, which is in all three |
| ArangoDBUtil.DocumentOf | jnosql-arangodb/src/main/java/org/eclipse/jnosql/databases/arangodb/communication/ArangoDBUtil.java:110-127 | what reading a property gives; specified by `ReadShapes`, and related to writing by `ReadThenWrite`, `WriteThenRead` and `EntityRoundTrip` |
| ArangoDBUtil.ToDocument | jnosql-arangodb/src/main/java/org/eclipse/jnosql/databases/arangodb/communication/ArangoDBUtil.java:110-127 | the method's loops build exactly the reading function's Document: map entries read recursively, one list of entry Documents per map of an iterable of maps, any other value wrapped as it is |
| ArangoDBUtil.ReadShapes | jnosql-arangodb/src/main/java/org/eclipse/jnosql/databases/arangodb/communication/ArangoDBUtil.java:110-127 | a map is read as a sub-document with one Document per entry, an iterable of maps as a sub-document list of entry lists, and every other value, a mixed list included, is kept |
| ArangoDBUtil.Split | jnosql-arangodb/src/main/java/org/eclipse/jnosql/databases/arangodb/communication/ArangoDBUtil.java:98 | `String.split` with a one-character pattern; specified by `SplitHead` |
| ArangoDBUtil.SplitHead | jnosql-arangodb/src/main/java/org/eclipse/jnosql/databases/arangodb/communication/ArangoDBUtil.java:98 | `split("/")` is empty exactly when the id is non-empty and made of slashes only, and otherwise starts with the part of the id before its first slash |
| ArangoDBUtil.ToEntity | jnosql-arangodb/src/main/java/org/eclipse/jnosql/databases/arangodb/communication/ArangoDBUtil.java:89-100 | reading fails exactly on an all-slash id; otherwise the entity is named after the id's first segment and holds one read Document per property, in order, followed by `_key`, `_id` and `_rev` |
| ArangoDBUtil.GetMap | jnosql-arangodb/src/main/java/org/eclipse/jnosql/databases/arangodb/communication/ArangoDBUtil.java:152-155 | collecting Documents into a map succeeds exactly when their names are distinct, giving one entry per Document, in order, with its value unconverted; otherwise it fails on the first name that repeats an earlier one |
| ArangoDBUtil.GetMaps | jnosql-arangodb/src/main/java/org/eclipse/jnosql/databases/arangodb/communication/ArangoDBUtil.java:145-147 | a sub-document list converts exactly when every element's names are distinct, giving each element's map in order; otherwise the error is the first failing element's |
| ArangoDBUtil.Convert | jnosql-arangodb/src/main/java/org/eclipse/jnosql/databases/arangodb/communication/ArangoDBUtil.java:135-150 | what writing a value gives; specified by `ConvertShapes`, and related to reading by `ReadThenWrite` and `WriteThenRead` |
| ArangoDBUtil.ConvertShapes | jnosql-arangodb/src/main/java/org/eclipse/jnosql/databases/arangodb/communication/ArangoDBUtil.java:135-150 | the cases of `convert` in the order it tests them: a Document becomes a one-entry map of its converted value; a sub-document becomes its map (an empty iterable becomes an empty map); a sub-document list becomes a list of maps; anything else is kept |
| ArangoDBUtil.BaseDocumentOf | jnosql-arangodb/src/main/java/org/eclipse/jnosql/databases/arangodb/communication/ArangoDBUtil.java:102-108 | the loop of `getBaseDocument` as a fold over the Documents and their conversions; specified by `BaseDocumentSucceedsIff`, `BaseDocumentFirstFailure` and `BaseDocumentMeaning` |
| ArangoDBUtil.PutErrPersists | jnosql-arangodb/src/main/java/org/eclipse/jnosql/databases/arangodb/communication/ArangoDBUtil.java:104-106 | once a conversion in the loop has failed, the rest of the loop does not change the outcome |
| ArangoDBUtil.BaseDocumentSucceedsIff | jnosql-arangodb/src/main/java/org/eclipse/jnosql/databases/arangodb/communication/ArangoDBUtil.java:102-108 | building the property map succeeds exactly when every Document's value converts |
| ArangoDBUtil.BaseDocumentFirstFailure | jnosql-arangodb/src/main/java/org/eclipse/jnosql/databases/arangodb/communication/ArangoDBUtil.java:104-106 | a failed build fails with the error of the first Document whose value does not convert |
| ArangoDBUtil.BaseDocumentMeaning | jnosql-arangodb/src/main/java/org/eclipse/jnosql/databases/arangodb/communication/ArangoDBUtil.java:102-108 | the property map has exactly the Documents' names as keys, each holding the converted value of the last Document with that name |
| ArangoDBUtil.GetBaseDocument | jnosql-arangodb/src/main/java/org/eclipse/jnosql/databases/arangodb/communication/ArangoDBUtil.java:102-108 | the method's loop, with its early exit on a failed conversion, computes exactly the fold whose meaning the lemmas above state |
| ArangoDBUtil.ReadThenWrite | jnosql-arangodb/src/main/java/org/eclipse/jnosql/databases/arangodb/communication/ArangoDBUtil.java:110-155 | a stored scalar, non-empty list of scalars, map of such values with distinct keys, or non-empty list of such maps is read and written back unchanged |
| ArangoDBUtil.EmptyArrayWrittenAsMap | jnosql-arangodb/src/main/java/org/eclipse/jnosql/databases/arangodb/communication/ArangoDBUtil.java:142-144 | an empty stored array is read unchanged and written back as an empty map |
| ArangoDBUtil.NestedMapNotRestored | jnosql-arangodb/src/main/java/org/eclipse/jnosql/databases/arangodb/communication/ArangoDBUtil.java:152-155 | a map nested in a map is written back with its inner level still a list of Documents, so it differs from the stored value |
| ArangoDBUtil.WriteThenRead | jnosql-arangodb/src/main/java/org/eclipse/jnosql/databases/arangodb/communication/ArangoDBUtil.java:110-155 | a Document holding a scalar, a non-empty scalar list, a sub-document with distinct names over such values, or a non-empty sub-document list with distinct names is written and read back unchanged |
| ArangoDBUtil.EntityRoundTrip | jnosql-arangodb/src/main/java/org/eclipse/jnosql/databases/arangodb/communication/ArangoDBUtil.java:89-108 | an entity with distinct, writable fields, written and read back in whatever order the store lists the keys, gives back exactly its Documents |

## Left out

- Fetching the index mapping (`getIndexMappingRecord`) is a call over the network. `Select` takes the mapping as a parameter instead.
- `checkDatabase` and `checkCollection` create databases and collections through the ArangoDB client. They only cause side effects on the server, which is not modelled.
- `LOGGER`, `isIdField` and `NOT_APPENDABLE` are not modelled. Nothing in the modelled operations uses them.
- `EntityConverter` is not part of this model. The field that holds the collection name is modelled as the constant `"@entity"`.
- `ValueUtil` is not part of this model. `ValueUtil.convert` is taken as the identity on the value universe, so value writers for special Java types are not modelled. `ValueUtil.convertToList` unwraps an iterable and wraps anything else in a one-element list.
- A condition's children are carried directly by the `And`, `Or` and `Not` constructors. So the typed extraction `document.get(TypeReference)` is not modelled, and neither is its failure on a wrongly typed value.
- LIKE's `get(String.class)` conversion is not modelled. The query-string clause carries the value it was given.
- The Elasticsearch client's builders are modelled as the clause tree they build. JSON encoding of values is left out.
- The only operator outside the converter's switch that the model carries is BETWEEN. Every other such operator would fail in the same way.
- Null values and the `NullPointerException`s they would cause are left out. Every value in the model exists.
- Hash map iteration order is not modelled. Maps are sequences of entries in the order the store lists them, and `EntityRoundTrip` holds for any such order. A written map nested inside a property keeps its Documents' order.
- `GetBaseDocument` returns the property map. The `BaseDocument(Map)` constructor's extraction of `_key`, `_id` and `_rev` from that map belongs to the ArangoDB client and is not modelled.
- `ToEntity` receives the document's properties, key, id and revision as one value. The ArangoDB client's `BaseDocument` accessors are not modelled.
