/**
  The ArangoDB document translator. Reading turns the properties of a stored
  document into generic Documents, classifying every value by its structure;
  writing turns the Documents of an entity back into the property map that
  the ArangoDB client stores.
 */
module ArangoDBUtil {
  import opened Values

  const Key: string := "_key"
  const Id: string := "_id"
  const Rev: string := "_rev"

  /** A stored document as the ArangoDB client returns it: its properties in iteration order and its metadata. */
  datatype BaseDocument = BaseDocument(properties: seq<(string, Obj)>, key: string, id: string, revision: string)

  /** A generic record: the collection it belongs to and its fields in order. */
  datatype DocumentEntity = DocumentEntity(name: string, documents: seq<Document>)

  datatype Error =
    | DuplicateKey(name: string)  // `Collectors.toMap` without a merge function met a name twice
    | NoCollection                // `id.split("/")` is empty, so element 0 does not exist

  // ---------------------------------------------------------------------
  // Structural classification of values
  // ---------------------------------------------------------------------

  /** `isADocumentIterable`: an iterable whose every element is a map. */
  predicate IsADocumentIterable(v: Obj) {
    v.NativeList? && forall i :: 0 <= i < |v.items| ==> v.items[i].NativeMap?
  }

  /** `isSudDocument`: an iterable whose every element is a Document. */
  predicate IsSubDocument(v: Obj) {
    v.NativeList? && forall i :: 0 <= i < |v.items| ==> v.items[i].Doc?
  }

  /** `isSudDocumentList`: an iterable whose every element is an iterable of Documents. */
  predicate IsSubDocumentList(v: Obj) {
    v.NativeList? && forall i :: 0 <= i < |v.items| ==> v.items[i].NativeList? && IsSubDocument(v.items[i])
  }

  /**
    The three iterable classes are disjoint except on the empty iterable,
    which belongs to all of them.
   */
  lemma ClassesOverlapOnlyWhenEmpty(v: Obj)
    ensures IsADocumentIterable(v) && IsSubDocument(v) ==> v.items == []
    ensures IsADocumentIterable(v) && IsSubDocumentList(v) ==> v.items == []
    ensures IsSubDocument(v) && IsSubDocumentList(v) ==> v.items == []
    ensures v == NativeList([]) ==> IsADocumentIterable(v) && IsSubDocument(v) && IsSubDocumentList(v)
  {
    if v.NativeList? && v.items != [] {
      assert v.items[0] in v.items;
    }
  }

  // ---------------------------------------------------------------------
  // Reading: native values to Documents
  // ---------------------------------------------------------------------

  /** `ENTRY_DOCUMENT` applied to every entry of a map: each entry wrapped as it is. */
  function EntryDocuments(entries: seq<(string, Obj)>): seq<Obj> {
    seq(|entries|, i requires 0 <= i < |entries| => Doc(Document(entries[i].0, entries[i].1)))
  }

  /**
    What `toDocument` returns for a property `key` whose value is `value`:
    a map becomes the list of its entries read recursively; an iterable of
    maps becomes one list of entry Documents per map; anything else is
    wrapped unchanged.
   */
  function DocumentOf(key: string, value: Obj): Document
    decreases value
  {
    if value.NativeMap? then
      var es := value.entries;
      Document(key, NativeList(seq(|es|, i requires 0 <= i < |es| => Doc(DocumentOf(es[i].0, es[i].1)))))
    else if IsADocumentIterable(value) then
      var ms := value.items;
      Document(key, NativeList(seq(|ms|, i requires 0 <= i < |ms| => NativeList(EntryDocuments(ms[i].entries)))))
    else
      Document(key, value)
  }

  /**
    `toDocument`: the Map branch reads each entry recursively; the iterable
    branch fills a list with one list of entry Documents per element.
   */
  method ToDocument(key: string, value: Obj) returns (d: Document)
    ensures d == DocumentOf(key, value)
    decreases value
  {
    if value.NativeMap? {
      var es := value.entries;
      var docs: seq<Obj> := [];
      for i := 0 to |es|
        invariant |docs| == i
        invariant forall j :: 0 <= j < i ==> docs[j] == Doc(DocumentOf(es[j].0, es[j].1))
      {
        assert es[i] in es;
        var sub := ToDocument(es[i].0, es[i].1);
        docs := docs + [Doc(sub)];
      }
      assert docs == seq(|es|, i requires 0 <= i < |es| => Doc(DocumentOf(es[i].0, es[i].1)));
      return Document(key, NativeList(docs));
    }
    if IsADocumentIterable(value) {
      var documents: seq<Obj> := [];
      for i := 0 to |value.items|
        invariant |documents| == i
        invariant forall j :: 0 <= j < i ==> documents[j] == NativeList(EntryDocuments(value.items[j].entries))
      {
        var m := value.items[i];
        documents := documents + [NativeList(EntryDocuments(m.entries))];
      }
      assert documents == seq(|value.items|, i requires 0 <= i < |value.items| => NativeList(EntryDocuments(value.items[i].entries)));
      return Document(key, NativeList(documents));
    }
    return Document(key, value);
  }

  /**
    What reading produces is what writing recognises: a map is read as a
    sub-document, an iterable of maps as a sub-document list (its entries
    not read further), and every other value, a list with a non-map element
    included, is kept as it is.
   */
  lemma ReadShapes(key: string, value: Obj)
    ensures DocumentOf(key, value).name == key
    ensures value.NativeMap? ==>
              var r := DocumentOf(key, value).value;
              IsSubDocument(r) && |r.items| == |value.entries|
              && forall i :: 0 <= i < |r.items| ==>
                   r.items[i].doc == DocumentOf(value.entries[i].0, value.entries[i].1)
    ensures !value.NativeMap? && IsADocumentIterable(value) ==>
              var r := DocumentOf(key, value).value;
              IsSubDocumentList(r) && |r.items| == |value.items|
              && forall i :: 0 <= i < |r.items| ==> r.items[i].items == EntryDocuments(value.items[i].entries)
    ensures !value.NativeMap? && !IsADocumentIterable(value) ==> DocumentOf(key, value).value == value
    ensures value == NativeList([]) ==> DocumentOf(key, value).value == NativeList([])
  {
  }

  /** Removes the empty strings at the end of a list. */
  function DropTrailingEmpty(ps: seq<string>): seq<string> {
    if ps == [] then []
    else if ps[|ps| - 1] == "" then DropTrailingEmpty(ps[..|ps| - 1])
    else ps
  }

  /**
    `String.split` with a one-character pattern and no limit: the string
    itself when the character does not occur, otherwise its pieces without
    the trailing empty ones.
   */
  function Split(s: string, c: char): seq<string> {
    if IndexOf(s, c) == |s| then [s] else DropTrailingEmpty(Pieces(s, c))
  }

  /** True when `s` is not empty and holds nothing but `c`. */
  ghost predicate OnlyChar(s: string, c: char) {
    |s| > 0 && forall i :: 0 <= i < |s| ==> s[i] == c
  }

  lemma {:induction false} DropTrailingEmptyPrefix(ps: seq<string>)
    ensures var r := DropTrailingEmpty(ps); |r| <= |ps| && r == ps[..|r|]
    ensures DropTrailingEmpty(ps) == [] <==> forall k :: 0 <= k < |ps| ==> ps[k] == ""
  {
    if ps != [] && ps[|ps| - 1] == "" {
      var init := ps[..|ps| - 1];
      DropTrailingEmptyPrefix(init);
      var r := DropTrailingEmpty(init);
      assert ps[..|r|] == init[..|r|];
      if forall k :: 0 <= k < |init| ==> init[k] == "" {
        assert forall k :: 0 <= k < |ps| ==> ps[k] == "" by {
          forall k | 0 <= k < |ps| ensures ps[k] == "" {
            if k < |init| { assert ps[k] == init[k]; }
          }
        }
      }
    }
  }

  lemma {:induction false} PiecesAllEmpty(s: string, c: char)
    ensures (forall k :: 0 <= k < |Pieces(s, c)| ==> Pieces(s, c)[k] == "")
        <==> (forall i :: 0 <= i < |s| ==> s[i] == c)
    decreases |s|
  {
    var i := IndexOf(s, c);
    if i < |s| {
      var rest := s[i + 1..];
      PiecesAllEmpty(rest, c);
      var ps := Pieces(s, c);
      assert ps == [s[..i]] + Pieces(rest, c);
      if forall j :: 0 <= j < |s| ==> s[j] == c {
        assert i == 0;
        forall k | 0 <= k < |rest| ensures rest[k] == c { assert rest[k] == s[k + 1]; }
        forall k | 0 <= k < |ps| ensures ps[k] == "" {
          if k > 0 { assert ps[k] == Pieces(rest, c)[k - 1]; }
        }
      }
      if forall k :: 0 <= k < |ps| ==> ps[k] == "" {
        assert ps[0] == s[..i];
        assert i == 0;
        forall k | 0 <= k < |Pieces(rest, c)| ensures Pieces(rest, c)[k] == "" {
          assert Pieces(rest, c)[k] == ps[k + 1];
        }
        forall j | 0 <= j < |s| ensures s[j] == c {
          if j > 0 { assert s[j] == rest[j - 1]; }
        }
      }
    } else {
      var ps := Pieces(s, c);
      assert ps == [s];
      if |s| > 0 {
        assert s[0] != c;
        assert ps[0] != "";
      }
    }
  }

  /**
    `id.split("/")[0]`: it fails exactly when the id is made of slashes only,
    and otherwise gives the part of the id before its first slash.
   */
  lemma SplitHead(s: string)
    ensures |Split(s, '/')| == 0 <==> OnlyChar(s, '/')
    ensures |Split(s, '/')| > 0 ==> Split(s, '/')[0] == s[..IndexOf(s, '/')]
  {
    var i := IndexOf(s, '/');
    if i < |s| {
      var ps := Pieces(s, '/');
      DropTrailingEmptyPrefix(ps);
      PiecesAllEmpty(s, '/');
      assert ps[0] == s[..i];
    } else if |s| > 0 {
      assert s[0] != '/';
    }
  }

  /**
    `toEntity`: one Document per property, in property order, then the
    `_key`, `_id` and `_rev` Documents; the entity is named after the part
    of the id before its first slash, and an id made of slashes only fails.
   */
  method ToEntity(document: BaseDocument) returns (r: Result<DocumentEntity, Error>)
    ensures r.Ok? <==> !OnlyChar(document.id, '/')
    ensures r.Err? ==> r.error == NoCollection
    ensures r.Ok? ==> r.value.name == document.id[..IndexOf(document.id, '/')]
    ensures r.Ok? ==>
              var props := document.properties;
              var docs := r.value.documents;
              |docs| == |props| + 3
              && (forall i :: 0 <= i < |props| ==> docs[i] == DocumentOf(props[i].0, props[i].1))
              && docs[|props|..] == [Document(Key, Scalar(Text(document.key))),
                                     Document(Id, Scalar(Text(document.id))),
                                     Document(Rev, Scalar(Text(document.revision)))]
  {
    var props := document.properties;
    var documents: seq<Document> := [];
    for i := 0 to |props|
      invariant |documents| == i
      invariant forall j :: 0 <= j < i ==> documents[j] == DocumentOf(props[j].0, props[j].1)
    {
      var d := ToDocument(props[i].0, props[i].1);
      documents := documents + [d];
    }
    documents := documents + [Document(Key, Scalar(Text(document.key)))];
    documents := documents + [Document(Id, Scalar(Text(document.id)))];
    documents := documents + [Document(Rev, Scalar(Text(document.revision)))];
    var parts := Split(document.id, '/');
    SplitHead(document.id);
    if |parts| == 0 {
      return Err(NoCollection);
    }
    return Ok(DocumentEntity(parts[0], documents));
  }

  // ---------------------------------------------------------------------
  // Writing: Documents to native values
  // ---------------------------------------------------------------------

  /** No two Documents among `items` share a name. */
  ghost predicate DistinctNames(items: seq<Obj>) {
    forall i, j :: 0 <= i < j < |items| && items[i].Doc? && items[j].Doc? ==> items[i].doc.name != items[j].doc.name
  }

  /**
    `getMap`: an iterable of Documents collected into a map from name to
    the Document's value as `ValueUtil.convert` leaves it (the identity
    here: the value is not converted again). A name met twice is an error,
    reported for the first element that repeats an earlier name.
   */
  function GetMap(v: Obj): (r: Result<Obj, Error>)
    requires IsSubDocument(v)
    ensures r.Ok? <==> DistinctNames(v.items)
    ensures r.Ok? ==>
              r.value.NativeMap? && |r.value.entries| == |v.items|
              && forall i :: 0 <= i < |v.items| ==> r.value.entries[i] == (v.items[i].doc.name, v.items[i].doc.value)
    ensures r.Err? ==>
              (r.error.DuplicateKey?
               && exists j :: 0 < j < |v.items| && v.items[j].doc.name == r.error.name && DistinctNames(v.items[..j])
                              && exists i :: 0 <= i < j && v.items[i].doc.name == r.error.name)
    decreases |v.items|
  {
    var items := v.items;
    if items == [] then Ok(NativeMap([]))
    else
      var n := |items| - 1;
      var init := NativeList(items[..n]);
      var last := items[n].doc;
      assert forall k :: 0 <= k < n ==> items[k] == init.items[k];
      match GetMap(init)
      case Err(e) =>
        assert forall j :: 0 <= j < n ==> init.items[..j] == items[..j];
        Err(e)
      case Ok(m) =>
        if exists k :: 0 <= k < |m.entries| && m.entries[k].0 == last.name then
          assert init.items == items[..n];
          Err(DuplicateKey(last.name))
        else
          var es := m.entries + [(last.name, last.value)];
          assert forall k :: 0 <= k < n ==> items[k].doc.name != last.name by {
            forall k | 0 <= k < n ensures items[k].doc.name != last.name {
              assert m.entries[k].0 == items[k].doc.name;
            }
          }
          Ok(NativeMap(es))
  }

  /** `getMap` applied to every element of a sub-document list, in order; the first failure wins. */
  function GetMaps(lists: seq<Obj>): (r: Result<seq<Obj>, Error>)
    requires forall i :: 0 <= i < |lists| ==> lists[i].NativeList? && IsSubDocument(lists[i])
    ensures r.Ok? <==> forall i :: 0 <= i < |lists| ==> DistinctNames(lists[i].items)
    ensures r.Ok? ==> |r.value| == |lists| && forall i :: 0 <= i < |lists| ==> Ok(r.value[i]) == GetMap(lists[i])
    ensures r.Err? ==> exists i :: 0 <= i < |lists| && GetMap(lists[i]) == Err(r.error)
                                  && forall j :: 0 <= j < i ==> GetMap(lists[j]).Ok?
  {
    if lists == [] then Ok([])
    else
      AllDistinctSplits(lists);
      match GetMap(lists[0])
      case Err(e) => Err(e)
      case Ok(m) =>
        match GetMaps(lists[1..])
        case Err(e) =>
          FirstFailureShifts(lists, e);
          Err(e)
        case Ok(ms) =>
          assert forall i :: 1 <= i < |lists| ==> lists[i] == lists[1..][i - 1];
          Ok([m] + ms)
  }

  /** Every element has distinct names exactly when the first one and all the others do. */
  lemma AllDistinctSplits(lists: seq<Obj>)
    requires |lists| > 0
    requires forall i :: 0 <= i < |lists| ==> lists[i].NativeList?
    ensures (forall i :: 0 <= i < |lists| ==> DistinctNames(lists[i].items))
        <==> DistinctNames(lists[0].items) && forall i :: 0 <= i < |lists| - 1 ==> DistinctNames(lists[1..][i].items)
  {
    assert forall i :: 1 <= i < |lists| ==> lists[i] == lists[1..][i - 1];
  }

  /** The first failing element of `lists[1..]` is the first failing element of `lists` when `lists[0]` succeeds. */
  lemma FirstFailureShifts(lists: seq<Obj>, e: Error)
    requires |lists| > 0
    requires forall i :: 0 <= i < |lists| ==> lists[i].NativeList? && IsSubDocument(lists[i])
    requires GetMap(lists[0]).Ok?
    requires exists k :: 0 <= k < |lists| - 1 && GetMap(lists[1..][k]) == Err(e)
                         && forall j :: 0 <= j < k ==> GetMap(lists[1..][j]).Ok?
    ensures exists i :: 0 <= i < |lists| && GetMap(lists[i]) == Err(e)
                        && forall j :: 0 <= j < i ==> GetMap(lists[j]).Ok?
  {
    var k :| 0 <= k < |lists| - 1 && GetMap(lists[1..][k]) == Err(e)
             && forall j :: 0 <= j < k ==> GetMap(lists[1..][j]).Ok?;
    assert lists[k + 1] == lists[1..][k];
    forall j | 0 <= j < k + 1 ensures GetMap(lists[j]).Ok? {
      if j > 0 { assert lists[j] == lists[1..][j - 1]; }
    }
  }

  /**
    `convert`: a Document becomes the one-entry map from its name to its
    converted value; an iterable of Documents a map; an iterable of
    iterables of Documents a list of maps; anything else stays as it is.
   */
  function Convert(v: Obj): Result<Obj, Error>
    decreases v
  {
    if v.Doc? then
      match Convert(v.doc.value)
      case Err(e) => Err(e)
      case Ok(c) => Ok(NativeMap([(v.doc.name, c)]))
    else if IsSubDocument(v) then
      GetMap(v)
    else if IsSubDocumentList(v) then
      match GetMaps(v.items)
      case Err(e) => Err(e)
      case Ok(ms) => Ok(NativeList(ms))
    else
      Ok(v)
  }

  /**
    The cases of `convert`, in the order it tests them: a Document, then a
    sub-document (an empty iterable included, which becomes an empty map),
    then a sub-document list; any other value is kept.
   */
  lemma ConvertShapes(v: Obj)
    ensures v.Doc? ==>
              (Convert(v).Ok? <==> Convert(v.doc.value).Ok?)
              && (Convert(v).Ok? ==> Convert(v) == Ok(NativeMap([(v.doc.name, Convert(v.doc.value).value)])))
    ensures IsSubDocument(v) ==>
              (Convert(v).Ok? <==> DistinctNames(v.items))
              && (Convert(v).Ok? ==>
                    var es := Convert(v).value.entries;
                    |es| == |v.items|
                    && forall i :: 0 <= i < |es| ==> es[i] == (v.items[i].doc.name, v.items[i].doc.value))
    ensures v == NativeList([]) ==> Convert(v) == Ok(NativeMap([]))
    ensures !IsSubDocument(v) && IsSubDocumentList(v) ==>
              (Convert(v).Ok? <==> forall i :: 0 <= i < |v.items| ==> DistinctNames(v.items[i].items))
              && (Convert(v).Ok? ==>
                    var ms := Convert(v).value.items;
                    |ms| == |v.items| && forall i :: 0 <= i < |ms| ==> GetMap(v.items[i]) == Ok(ms[i]))
    ensures !v.Doc? && !IsSubDocument(v) && !IsSubDocumentList(v) ==> Convert(v) == Ok(v)
  {
  }

  /** The last Document of `docs` with the name of `docs[i]` is `docs[i]`. */
  ghost predicate LastWithName(docs: seq<Document>, i: int) {
    0 <= i < |docs| && forall j :: i < j < |docs| ==> docs[j].name != docs[i].name
  }

  /** `convert` applied to every Document's value, in order. */
  function Converted(docs: seq<Document>): (rs: seq<Result<Obj, Error>>)
    ensures |rs| == |docs| && forall i :: 0 <= i < |docs| ==> rs[i] == Convert(docs[i].value)
  {
    seq(|docs|, i requires 0 <= i < |docs| => Convert(docs[i].value))
  }

  /**
    The loop of `getBaseDocument` over the Documents and the results of
    converting their values: each value is put under its Document's name,
    and the first failed conversion ends the loop with its error.
   */
  function Put(docs: seq<Document>, rs: seq<Result<Obj, Error>>): Result<map<string, Obj>, Error>
    requires |rs| == |docs|
  {
    if docs == [] then Ok(map[])
    else
      var n := |docs| - 1;
      match Put(docs[..n], rs[..n])
      case Err(e) => Err(e)
      case Ok(m) =>
        (match rs[n]
         case Err(e) => Err(e)
         case Ok(c) => Ok(m[docs[n].name := c]))
  }

  /** The map that `getBaseDocument` builds. */
  function BaseDocumentOf(docs: seq<Document>): Result<map<string, Obj>, Error> {
    Put(docs, Converted(docs))
  }

  /**
    `m` holds one key per Document name, and under it the converted value
    (as listed in `rs`) of the last Document with that name.
   */
  ghost predicate Stores(docs: seq<Document>, rs: seq<Result<Obj, Error>>, m: map<string, Obj>)
    requires |rs| == |docs|
  {
    && (forall i :: 0 <= i < |docs| ==> docs[i].name in m)
    && (forall k :: k in m ==> exists i :: 0 <= i < |docs| && docs[i].name == k)
    && (forall i :: LastWithName(docs, i) ==> rs[i] == Ok(m[docs[i].name]))
  }

  /**
    The map that `getBaseDocument` builds: one key per Document name, holding
    the converted value of the last Document with that name.
   */
  ghost predicate IsBaseDocumentOf(docs: seq<Document>, m: map<string, Obj>) {
    Stores(docs, Converted(docs), m)
  }

  lemma StoresStep(before: seq<Document>, rsb: seq<Result<Obj, Error>>, d: Document, m: map<string, Obj>, c: Obj)
    requires |rsb| == |before|
    requires Stores(before, rsb, m)
    ensures Stores(before + [d], rsb + [Ok(c)], m[d.name := c])
  {
    var after, rs := before + [d], rsb + [Ok(c)];
    var m' := m[d.name := c];
    var n := |before|;
    forall k | k in m' ensures exists j :: 0 <= j < |after| && after[j].name == k {
      if k != d.name {
        var j :| 0 <= j < n && before[j].name == k;
        assert after[j].name == k;
      } else {
        assert after[n].name == k;
      }
    }
    forall j | LastWithName(after, j) ensures rs[j] == Ok(m'[after[j].name]) {
      if j < n {
        assert after[j] == before[j] && rs[j] == rsb[j];
        assert after[n] == d;
        assert LastWithName(before, j) by {
          forall l | j < l < n ensures before[l].name != before[j].name {
            assert after[l] == before[l];
          }
        }
      }
    }
  }

  /** Once the loop over a prefix has failed, the loop over the whole list fails the same way. */
  lemma {:induction false} PutErrPersists(docs: seq<Document>, rs: seq<Result<Obj, Error>>, k: nat)
    requires |rs| == |docs| && k <= |docs|
    requires Put(docs[..k], rs[..k]).Err?
    ensures Put(docs, rs) == Put(docs[..k], rs[..k])
    decreases |docs| - k
  {
    if k < |docs| {
      var n := |docs| - 1;
      assert docs[..n][..k] == docs[..k] && rs[..n][..k] == rs[..k];
      PutErrPersists(docs[..n], rs[..n], k);
    } else {
      assert docs[..k] == docs && rs[..k] == rs;
    }
  }

  /** The loop succeeds exactly when every conversion does. */
  lemma {:induction false} PutSucceedsIff(docs: seq<Document>, rs: seq<Result<Obj, Error>>)
    requires |rs| == |docs|
    ensures Put(docs, rs).Ok? <==> forall i :: 0 <= i < |rs| ==> rs[i].Ok?
  {
    if docs != [] {
      var n := |docs| - 1;
      PutSucceedsIff(docs[..n], rs[..n]);
      assert forall i :: 0 <= i < n ==> rs[..n][i] == rs[i];
    }
  }

  /** A failed loop fails with the error of the first failed conversion. */
  lemma {:induction false} PutFirstFailure(docs: seq<Document>, rs: seq<Result<Obj, Error>>)
    requires |rs| == |docs|
    ensures Put(docs, rs).Err? ==>
              exists i :: 0 <= i < |rs| && rs[i] == Err(Put(docs, rs).error) && forall j :: 0 <= j < i ==> rs[j].Ok?
  {
    if docs != [] {
      var n := |docs| - 1;
      PutSucceedsIff(docs[..n], rs[..n]);
      PutFirstFailure(docs[..n], rs[..n]);
      assert forall i :: 0 <= i < n ==> rs[..n][i] == rs[i];
    }
  }

  /** A successful loop stores, under each name, the value of the last Document with that name. */
  lemma {:induction false} PutMeaning(docs: seq<Document>, rs: seq<Result<Obj, Error>>)
    requires |rs| == |docs|
    requires Put(docs, rs).Ok?
    ensures Stores(docs, rs, Put(docs, rs).value)
  {
    if docs != [] {
      var n := |docs| - 1;
      PutMeaning(docs[..n], rs[..n]);
      StoresStep(docs[..n], rs[..n], docs[n], Put(docs[..n], rs[..n]).value, rs[n].value);
      assert docs == docs[..n] + [docs[n]] && rs == rs[..n] + [Ok(rs[n].value)];
    }
  }

  /** Building the property map succeeds exactly when every Document's value converts. */
  lemma BaseDocumentSucceedsIff(docs: seq<Document>)
    ensures BaseDocumentOf(docs).Ok? <==> forall i :: 0 <= i < |docs| ==> Convert(docs[i].value).Ok?
  {
    PutSucceedsIff(docs, Converted(docs));
  }

  /** A failure is the error of the first Document whose value does not convert. */
  lemma BaseDocumentFirstFailure(docs: seq<Document>)
    ensures BaseDocumentOf(docs).Err? ==>
              exists i :: 0 <= i < |docs| && Convert(docs[i].value) == Err(BaseDocumentOf(docs).error)
                          && forall j :: 0 <= j < i ==> Convert(docs[j].value).Ok?
  {
    PutFirstFailure(docs, Converted(docs));
  }

  /**
    A successful build holds, under each name, the converted value of the
    last Document with that name, and no other key.
   */
  lemma BaseDocumentMeaning(docs: seq<Document>)
    requires BaseDocumentOf(docs).Ok?
    ensures IsBaseDocumentOf(docs, BaseDocumentOf(docs).value)
  {
    PutMeaning(docs, Converted(docs));
  }

  /**
    `getBaseDocument`: the loop puts every Document's converted value under
    its name, so a later Document overwrites an earlier one of the same name;
    a conversion that fails stops the loop with its error.
   */
  method GetBaseDocument(entity: DocumentEntity) returns (r: Result<map<string, Obj>, Error>)
    ensures r == BaseDocumentOf(entity.documents)
  {
    var docs := entity.documents;
    ghost var rs := Converted(docs);
    var m: map<string, Obj> := map[];
    for i := 0 to |docs|
      invariant Put(docs[..i], rs[..i]) == Ok(m)
    {
      assert docs[..i + 1][..i] == docs[..i] && rs[..i + 1][..i] == rs[..i];
      var c := Convert(docs[i].value);
      assert rs[..i + 1][i] == c;
      if c.Err? {
        PutErrPersists(docs, rs, i + 1);
        return Err(c.error);
      }
      m := m[docs[i].name := c.value];
    }
    assert docs[..|docs|] == docs && rs[..|docs|] == rs;
    return Ok(m);
  }

  // ---------------------------------------------------------------------
  // Round trips
  // ---------------------------------------------------------------------

  /**
    A scalar, or a non-empty list of scalars: values that both directions
    leave alone. This is a sufficient condition, not an exact one.
   */
  ghost predicate Leaf(v: Obj) {
    v.Scalar? || (v.NativeList? && |v.items| > 0 && forall i :: 0 <= i < |v.items| ==> v.items[i].Scalar?)
  }

  ghost predicate DistinctKeys(entries: seq<(string, Obj)>) {
    forall i, j :: 0 <= i < j < |entries| ==> entries[i].0 != entries[j].0
  }

  /**
    Stored values that reading then writing gives back unchanged. The
    condition is sufficient, not exact: a map entry holding an empty list,
    or a list mixing scalars and maps, also comes back unchanged.
   */
  ghost predicate Restorable(v: Obj) {
    || Leaf(v)
    || (v.NativeMap? && DistinctKeys(v.entries) && forall i :: 0 <= i < |v.entries| ==> Leaf(v.entries[i].1))
    || (v.NativeList? && |v.items| > 0
        && forall i :: 0 <= i < |v.items| ==> v.items[i].NativeMap? && DistinctKeys(v.items[i].entries))
  }

  lemma LeafKept(key: string, v: Obj)
    requires Leaf(v)
    ensures DocumentOf(key, v) == Document(key, v)
    ensures Convert(v) == Ok(v)
  {
    if v.NativeList? {
      assert v.items[0].Scalar?;
    }
  }

  /**
    A stored scalar, list of scalars, map of such values or non-empty list
    of maps is read and written back as it was.
   */
  lemma ReadThenWrite(key: string, v: Obj)
    requires Restorable(v)
    ensures Convert(DocumentOf(key, v).value) == Ok(v)
  {
    if Leaf(v) {
      LeafKept(key, v);
    } else if v.NativeMap? {
      var es := v.entries;
      var items := DocumentOf(key, v).value.items;
      forall i | 0 <= i < |es| ensures items[i] == Doc(Document(es[i].0, es[i].1)) {
        LeafKept(es[i].0, es[i].1);
      }
      var r := GetMap(DocumentOf(key, v).value);
      assert DistinctNames(items);
      assert r.value.entries == es;
    } else {
      var ms := v.items;
      assert ms[0].NativeMap?;
      var lists := DocumentOf(key, v).value.items;
      assert !IsSubDocument(DocumentOf(key, v).value) by {
        assert !lists[0].Doc?;
      }
      forall i | 0 <= i < |ms| ensures GetMap(lists[i]) == Ok(ms[i]) {
        var r := GetMap(lists[i]);
        assert DistinctNames(lists[i].items);
        assert r.value.entries == ms[i].entries;
      }
      var w := GetMaps(lists);
      assert w.value == ms;
    }
  }

  /** An empty stored array is read as an empty sub-document list and written back as an empty map. */
  lemma EmptyArrayWrittenAsMap(key: string)
    ensures DocumentOf(key, NativeList([])).value == NativeList([])
    ensures Convert(DocumentOf(key, NativeList([])).value) == Ok(NativeMap([]))
  {
  }

  /**
    Only one level of nesting is restored: a map inside a map is read as a
    Document list inside a Document list, and writing it back converts the
    outer level only, leaving the inner Document list in place.
   */
  lemma NestedMapNotRestored(key: string, s: Obj)
    requires s.Scalar?
    ensures var v := NativeMap([("b", NativeMap([("c", s)]))]);
            Convert(DocumentOf(key, v).value) == Ok(NativeMap([("b", NativeList([Doc(Document("c", s))]))]))
            && Convert(DocumentOf(key, v).value) != Ok(v)
  {
    var inner := NativeMap([("c", s)]);
    var v := NativeMap([("b", inner)]);
    LeafKept("c", s);
    var sq := DocumentOf("b", inner).value.items;
    assert |sq| == 1 && sq[0] == Doc(DocumentOf("c", s));
    assert sq == [Doc(Document("c", s))];
    var w := DocumentOf(key, v).value;
    assert w.items == [Doc(Document("b", NativeList(sq)))];
    assert DistinctNames(w.items);
    var r := Convert(w);
    assert r.value.entries == [("b", NativeList(sq))];
    assert DocumentOf(key, v).value == NativeList([Doc(Document("b", NativeList([Doc(Document("c", s))])))]);
  }

  /**
    Document values that writing then reading gives back unchanged. The
    condition is sufficient, not exact.
   */
  ghost predicate Writable(v: Obj) {
    || Leaf(v)
    || (IsSubDocument(v) && DistinctNames(v.items) && forall i :: 0 <= i < |v.items| ==> Leaf(v.items[i].doc.value))
    || (IsSubDocumentList(v) && |v.items| > 0 && forall i :: 0 <= i < |v.items| ==> DistinctNames(v.items[i].items))
  }

  /**
    A Document holding a scalar, a list of scalars, a sub-document of such
    values or a non-empty sub-document list is written and read back as it
    was.
   */
  lemma WriteThenRead(d: Document)
    requires Writable(d.value)
    ensures Convert(d.value).Ok?
    ensures DocumentOf(d.name, Convert(d.value).value) == d
  {
    var v := d.value;
    if Leaf(v) {
      LeafKept(d.name, v);
    } else if IsSubDocument(v) {
      var es := Convert(v).value.entries;
      var back := DocumentOf(d.name, Convert(v).value).value.items;
      forall i | 0 <= i < |v.items| ensures back[i] == v.items[i] {
        LeafKept(es[i].0, es[i].1);
      }
    } else {
      assert v.items[0].NativeList?;
      var ms := Convert(v).value.items;
      assert IsADocumentIterable(Convert(v).value);
      var back := DocumentOf(d.name, Convert(v).value).value.items;
      forall i | 0 <= i < |v.items| ensures back[i] == v.items[i] {
        var r := GetMap(v.items[i]);
        assert r == Ok(ms[i]);
        assert EntryDocuments(ms[i].entries) == v.items[i].items;
      }
    }
  }

  /** No two Documents of an entity share a name. */
  ghost predicate UniqueNames(docs: seq<Document>) {
    forall i, j :: 0 <= i < j < |docs| ==> docs[i].name != docs[j].name
  }

  /** `entries` lists every key of `m` once, with its value. */
  ghost predicate Enumerates(entries: seq<(string, Obj)>, m: map<string, Obj>) {
    && (forall i :: 0 <= i < |entries| ==> entries[i].0 in m && entries[i].1 == m[entries[i].0])
    && (forall k :: k in m ==> exists i :: 0 <= i < |entries| && entries[i].0 == k)
  }

  /**
    Writing an entity with distinct, writable fields and reading the stored
    properties back, in whatever order the store lists them, gives back the
    entity's Documents (the synthetic `_key`, `_id`, `_rev` Documents that
    `ToEntity` appends aside).
   */
  lemma EntityRoundTrip(docs: seq<Document>, m: map<string, Obj>, entries: seq<(string, Obj)>)
    requires UniqueNames(docs)
    requires forall i :: 0 <= i < |docs| ==> Writable(docs[i].value)
    requires IsBaseDocumentOf(docs, m)
    requires Enumerates(entries, m)
    ensures forall d :: d in docs <==> exists i :: 0 <= i < |entries| && DocumentOf(entries[i].0, entries[i].1) == d
  {
    forall j | 0 <= j < |docs| ensures Convert(docs[j].value) == Ok(m[docs[j].name]) {
      assert LastWithName(docs, j);
      assert Converted(docs)[j] == Convert(docs[j].value);
    }
    forall j | 0 <= j < |docs| ensures DocumentOf(docs[j].name, m[docs[j].name]) == docs[j] {
      WriteThenRead(docs[j]);
    }
    forall d | d in docs ensures exists i :: 0 <= i < |entries| && DocumentOf(entries[i].0, entries[i].1) == d {
      var j :| 0 <= j < |docs| && docs[j] == d;
      assert d.name in m;
      var i :| 0 <= i < |entries| && entries[i].0 == d.name;
    }
    forall i | 0 <= i < |entries| ensures DocumentOf(entries[i].0, entries[i].1) in docs {
      var k := entries[i].0;
      assert k in m.Keys;
      var j :| 0 <= j < |docs| && docs[j].name == k;
    }
  }
}
