/**
  The Elasticsearch query converter: a document query (a collection name and
  an optional condition tree) becomes a boolean query tree. Whether an
  equality is sent as an exact `term` query or as an analysed `match` query
  depends on the index mapping, which is read once per query and passed down
  the recursion unchanged.
 */
module QueryConverter {
  import opened Values

  /** A field's entry in the index mapping. */
  datatype Property = Keyword | Object(properties: map<string, Property>) | Other

  /** The properties at the top of an index mapping record. */
  type Mapping = map<string, Property>

  datatype Bound = Lt | Lte | Gt | Gte

  /** The query tree built by the Elasticsearch client's builders. */
  datatype Clause =
    | Term(field: string, value: Obj)
    | Match(field: string, value: Obj)
    | Range(field: string, bound: Bound, value: Obj)
    | QueryString(field: string, query: Obj, allowLeadingWildcard: bool)
    | Must(left: Clause, right: Clause)
    | Should(left: Clause, right: Clause)
    | MustNot(clause: Clause)

  /** The kinds of a condition that compares one field with a value. */
  datatype Operator =
    | Equals | GreaterThan | GreaterEqualsThan | LesserThan | LesserEqualsThan
    | Like | In | Between

  /**
    A document condition. The logical kinds AND, OR and NOT carry their
    children directly; every other kind names a field and a value.
   */
  datatype Condition =
    | Compare(op: Operator, field: string, value: Obj)
    | And(conditions: seq<Condition>)
    | Or(conditions: seq<Condition>)
    | Not(condition: Condition)

  datatype Query = Query(name: string, condition: Option<Condition>)

  /**
    The converter's `IllegalStateException`s: every empty case carries the
    same message, and an operator outside the switch names itself.
   */
  datatype Error = EmptyCondition | NotSupported(op: Operator)

  /** The field that holds a document's collection name. */
  const Entity: string := "@entity"

  // ---------------------------------------------------------------------
  // Term support: a recursive lookup of a dotted path in the mapping
  // ---------------------------------------------------------------------

  /** True when `attribute` names a keyword field, descending into object fields at each dot. */
  function SupportTermQuery(properties: Mapping, attribute: string): bool
    decreases |attribute|
  {
    var dot := IndexOf(attribute, '.');
    if dot < |attribute| then
      var name := attribute[..dot];
      if name in properties && properties[name].Object? then
        SupportTermQuery(properties[name].properties, attribute[dot + 1..])
      else
        false
    else
      attribute in properties && properties[attribute].Keyword?
  }

  /** A path without a dot is supported exactly when it is a keyword at this level. */
  lemma SupportUndotted(properties: Mapping, attribute: string)
    requires '.' !in attribute
    ensures SupportTermQuery(properties, attribute)
        <==> attribute in properties && properties[attribute].Keyword?
  {
    assert IndexOf(attribute, '.') == |attribute|;
  }

  /**
    `head.rest` splits at its first dot: it is supported exactly when `head`
    is an object field whose own properties support `rest`; a missing or
    non-object `head` gives false.
   */
  lemma SupportDotted(properties: Mapping, head: string, rest: string)
    requires '.' !in head
    ensures SupportTermQuery(properties, head + "." + rest)
        <==> head in properties && properties[head].Object?
             && SupportTermQuery(properties[head].properties, rest)
  {
    var a := head + "." + rest;
    var dot := IndexOf(a, '.');
    assert a[|head|] == '.';
    assert dot == |head|;
    assert a[..dot] == head;
    assert a[dot + 1..] == rest;
  }


  /**
    Reference definition of term support over an already split path: every
    segment but the last is an object field, the last is a keyword.
   */
  ghost predicate KeywordPath(properties: Mapping, segments: seq<string>)
    requires |segments| > 0
    decreases |segments|
  {
    var name := segments[0];
    name in properties &&
    if |segments| == 1 then properties[name].Keyword?
    else properties[name].Object? && KeywordPath(properties[name].properties, segments[1..])
  }

  /** The dotted-string lookup agrees with the segment-wise definition. */
  lemma {:induction false} SupportMatchesKeywordPath(properties: Mapping, segments: seq<string>)
    requires |segments| > 0
    requires forall i :: 0 <= i < |segments| ==> '.' !in segments[i]
    ensures SupportTermQuery(properties, Join(segments, '.')) == KeywordPath(properties, segments)
    decreases |segments|
  {
    if |segments| == 1 {
      SupportUndotted(properties, segments[0]);
    } else {
      var head := segments[0];
      SupportDotted(properties, head, Join(segments[1..], '.'));
      if head in properties && properties[head].Object? {
        SupportMatchesKeywordPath(properties[head].properties, segments[1..]);
      }
    }
  }

  /**
    Every attribute is covered: term support of an attribute is the
    segment-wise definition applied to the attribute's dot-separated pieces.
   */
  lemma SupportIsKeywordPath(properties: Mapping, attribute: string)
    ensures SupportTermQuery(properties, attribute) == KeywordPath(properties, Pieces(attribute, '.'))
  {
    JoinPieces(attribute, '.');
    SupportMatchesKeywordPath(properties, Pieces(attribute, '.'));
  }

  /** A keyword reached through an object field supports a term query. */
  lemma NestedKeywordExample(nested: Mapping)
    requires nested == map["address" := Object(map["city" := Keyword])]
    ensures SupportTermQuery(nested, "address.city")
  {
    assert "address" + "." + "city" == "address.city";
    SupportDotted(nested, "address", "city");
    SupportUndotted(nested["address"].properties, "city");
  }

  /** A path whose leaf the object field does not declare does not. */
  lemma MissingLeafExample(nested: Mapping)
    requires nested == map["address" := Object(map["city" := Keyword])]
    ensures !SupportTermQuery(nested, "address.unknown")
  {
    assert "address" + "." + "unknown" == "address.unknown";
    SupportDotted(nested, "address", "unknown");
    SupportUndotted(nested["address"].properties, "unknown");
  }

  /** A declared field that is not a keyword does not either. */
  lemma NonKeywordExample(flat: Mapping)
    requires flat == map["flat" := Other]
    ensures !SupportTermQuery(flat, "flat")
  {
    SupportUndotted(flat, "flat");
  }

  // ---------------------------------------------------------------------
  // Folding clauses with a binary boolean query
  // ---------------------------------------------------------------------

  datatype Occur = MustOccur | ShouldOccur

  function Combine(occur: Occur, a: Clause, b: Clause): Clause {
    match occur
    case MustOccur => Must(a, b)
    case ShouldOccur => Should(a, b)
  }

  /** `stream.reduce((d1, d2) -> bool(d1, d2))` on a non-empty stream: a left fold. */
  function Reduce(occur: Occur, clauses: seq<Clause>): Clause
    requires |clauses| > 0
  {
    if |clauses| == 1 then clauses[0]
    else Combine(occur, Reduce(occur, clauses[..|clauses| - 1]), clauses[|clauses| - 1])
  }

  /** Reads back the `n` operands of a left-nested chain of `occur` nodes. */
  function Operands(occur: Occur, c: Clause, n: nat): seq<Clause>
    requires n > 0
  {
    if n == 1 then [c]
    else match (occur, c)
      case (MustOccur, Must(l, r)) => Operands(occur, l, n - 1) + [r]
      case (ShouldOccur, Should(l, r)) => Operands(occur, l, n - 1) + [r]
      case _ => [c]
  }

  /** The fold keeps every operand, in order: reading it back gives the input. */
  lemma {:induction false} OperandsOfReduce(occur: Occur, clauses: seq<Clause>)
    requires |clauses| > 0
    ensures Operands(occur, Reduce(occur, clauses), |clauses|) == clauses
  {
    if |clauses| > 1 {
      var init := clauses[..|clauses| - 1];
      OperandsOfReduce(occur, init);
      assert init + [clauses[|clauses| - 1]] == clauses;
    }
  }

  // ---------------------------------------------------------------------
  // Compiling conditions
  // ---------------------------------------------------------------------

  /** An exact `term` query when the mapping allows it, an analysed `match` query otherwise. */
  function TermOrMatch(m: Mapping, field: string, v: Obj): Clause {
    if SupportTermQuery(m, field) then Term(field, v) else Match(field, v)
  }

  /** The comparison cases of `getCondition`: a leaf condition compiled against the mapping snapshot. */
  function Comparison(m: Mapping, op: Operator, field: string, v: Obj): Result<Clause, Error> {
    match op
    case Equals => Ok(TermOrMatch(m, field, v))
    case LesserThan => Ok(Range(field, Lt, v))
    case LesserEqualsThan => Ok(Range(field, Lte, v))
    case GreaterThan => Ok(Range(field, Gt, v))
    case GreaterEqualsThan => Ok(Range(field, Gte, v))
    case Like => Ok(QueryString(field, v, true))
    case In =>
      var vs := ConvertToList(v);
      if |vs| == 0 then Err(EmptyCondition)
      else Ok(Reduce(ShouldOccur, seq(|vs|, i requires 0 <= i < |vs| => TermOrMatch(m, field, vs[i]))))
    case Between => Err(NotSupported(Between))
  }

  /** The AND and OR cases of `getCondition`: the children compiled in order, then folded; no child is an error. */
  function Junction(m: Mapping, occur: Occur, cs: seq<Condition>): Result<Clause, Error>
    decreases cs, 1
  {
    match GetConditions(m, cs)
    case Err(e) => Err(e)
    case Ok(qs) => if |qs| == 0 then Err(EmptyCondition) else Ok(Reduce(occur, qs))
  }

  /** `getCondition`: one condition node compiled against the mapping snapshot. */
  function GetCondition(m: Mapping, c: Condition): Result<Clause, Error>
    decreases c, 2
  {
    match c
    case Compare(op, field, v) => Comparison(m, op, field, v)
    case And(cs) => Junction(m, MustOccur, cs)
    case Or(cs) => Junction(m, ShouldOccur, cs)
    case Not(child) =>
      match GetCondition(m, child)
      case Err(e) => Err(e)
      case Ok(q) => Ok(MustNot(q))
  }

  /**
    The children of AND and OR, compiled one by one in order; the first
    child that fails stops the stream with its error.
   */
  function GetConditions(m: Mapping, cs: seq<Condition>): (r: Result<seq<Clause>, Error>)
    decreases cs, 0
    ensures r.Ok? <==> forall i :: 0 <= i < |cs| ==> GetCondition(m, cs[i]).Ok?
    ensures r.Ok? ==> |r.value| == |cs|
    ensures r.Ok? ==> forall i :: 0 <= i < |cs| ==> r.value[i] == GetCondition(m, cs[i]).value
    ensures r.Err? ==> exists i :: 0 <= i < |cs| && GetCondition(m, cs[i]) == Err(r.error)
                                  && forall j :: 0 <= j < i ==> GetCondition(m, cs[j]).Ok?
  {
    if cs == [] then Ok([])
    else
      match GetCondition(m, cs[0])
      case Err(e) => Err(e)
      case Ok(q) =>
        match GetConditions(m, cs[1..])
        case Err(e) =>
          assert forall i :: 1 <= i < |cs| ==> cs[i] == cs[1..][i - 1];
          Err(e)
        case Ok(qs) =>
          assert forall i :: 1 <= i < |cs| ==> cs[i] == cs[1..][i - 1];
          Ok([q] + qs)
  }

  /**
    Reference definition of the conditions that compile: no BETWEEN, no
    empty IN value list, and no AND or OR without children, anywhere in the
    tree.
   */
  ghost predicate Compilable(c: Condition)
    decreases c
  {
    match c
    case Compare(op, _, v) => op != Between && (op == In ==> |ConvertToList(v)| > 0)
    case And(cs) => |cs| > 0 && forall i :: 0 <= i < |cs| ==> Compilable(cs[i])
    case Or(cs) => |cs| > 0 && forall i :: 0 <= i < |cs| ==> Compilable(cs[i])
    case Not(child) => Compilable(child)
  }

  /** Compilation fails exactly on the conditions outside `Compilable`, whatever the mapping. */
  lemma {:induction false} CompileSucceedsIff(m: Mapping, c: Condition)
    ensures GetCondition(m, c).Ok? <==> Compilable(c)
    decreases c
  {
    match c
    case Compare(_, _, _) =>
    case And(cs) =>
      forall i | 0 <= i < |cs| { CompileSucceedsIff(m, cs[i]); }
    case Or(cs) =>
      forall i | 0 <= i < |cs| { CompileSucceedsIff(m, cs[i]); }
    case Not(child) =>
      CompileSucceedsIff(m, child);
  }

  /**
    The error a condition fails with: an empty case, or the unsupported
    BETWEEN operator; nothing else is ever raised.
   */
  lemma {:induction false} CompileErrors(m: Mapping, c: Condition)
    ensures GetCondition(m, c).Err? ==>
              GetCondition(m, c).error == EmptyCondition || GetCondition(m, c).error == NotSupported(Between)
    decreases c
  {
    match c
    case Compare(_, _, _) =>
    case And(cs) =>
      forall i | 0 <= i < |cs| { CompileErrors(m, cs[i]); }
    case Or(cs) =>
      forall i | 0 <= i < |cs| { CompileErrors(m, cs[i]); }
    case Not(child) =>
      CompileErrors(m, child);
  }

  /**
    EQUALS is a `term` query exactly when the mapping supports one for the
    field, and otherwise a `match` query; both carry the field and the value.
   */
  lemma EqualsClause(m: Mapping, field: string, v: Obj)
    ensures GetCondition(m, Compare(Equals, field, v)).Ok?
    ensures var q := GetCondition(m, Compare(Equals, field, v)).value;
            (q.Term? <==> SupportTermQuery(m, field)) && (q.Term? || q.Match?)
            && q.field == field && q.value == v
  {
  }

  /**
    The four comparisons give a range with the matching bound and LIKE a
    query string allowing leading wildcards; none of them depends on the
    mapping.
   */
  lemma RangeAndLikeIgnoreMapping(m1: Mapping, m2: Mapping, op: Operator, field: string, v: Obj)
    requires op in {LesserThan, LesserEqualsThan, GreaterThan, GreaterEqualsThan, Like}
    ensures GetCondition(m1, Compare(op, field, v)) == GetCondition(m2, Compare(op, field, v))
    ensures GetCondition(m1, Compare(op, field, v)) ==
      Ok(match op
         case LesserThan => Range(field, Lt, v)
         case LesserEqualsThan => Range(field, Lte, v)
         case GreaterThan => Range(field, Gt, v)
         case GreaterEqualsThan => Range(field, Gte, v)
         case _ => QueryString(field, v, true))
  {
  }

  /**
    IN: an empty value list is an error; otherwise the result is a left
    fold of `should` over one term-or-match clause per value, in order, so a
    single value gives that clause alone with no `should` around it.
   */
  lemma InClauses(m: Mapping, field: string, v: Obj)
    ensures var vs := ConvertToList(v);
            var r := GetCondition(m, Compare(In, field, v));
            (r.Err? <==> |vs| == 0)
            && (r.Err? ==> r.error == EmptyCondition)
            && (r.Ok? ==> Operands(ShouldOccur, r.value, |vs|)
                          == seq(|vs|, i requires 0 <= i < |vs| => TermOrMatch(m, field, vs[i])))
            && (|vs| == 1 ==> r == Ok(TermOrMatch(m, field, vs[0])))
  {
    var vs := ConvertToList(v);
    if |vs| > 0 {
      OperandsOfReduce(ShouldOccur, seq(|vs|, i requires 0 <= i < |vs| => TermOrMatch(m, field, vs[i])));
    }
  }

  /**
    AND and OR compile every child in order and fold the results left to
    right with `must` (AND) or `should` (OR); no children is an error.
   */
  lemma JunctionClauses(m: Mapping, cs: seq<Condition>)
    ensures GetCondition(m, And(cs)).Ok? <==> |cs| > 0 && forall i :: 0 <= i < |cs| ==> GetCondition(m, cs[i]).Ok?
    ensures GetCondition(m, Or(cs)).Ok? <==> |cs| > 0 && forall i :: 0 <= i < |cs| ==> GetCondition(m, cs[i]).Ok?
    ensures cs == [] ==> GetCondition(m, And(cs)) == Err(EmptyCondition) == GetCondition(m, Or(cs))
    ensures GetCondition(m, And(cs)).Ok? ==>
              Operands(MustOccur, GetCondition(m, And(cs)).value, |cs|)
              == seq(|cs|, i requires 0 <= i < |cs| => GetCondition(m, cs[i]).value)
    ensures GetCondition(m, Or(cs)).Ok? ==>
              Operands(ShouldOccur, GetCondition(m, Or(cs)).value, |cs|)
              == seq(|cs|, i requires 0 <= i < |cs| => GetCondition(m, cs[i]).value)
  {
    var r := GetConditions(m, cs);
    if r.Ok? && |cs| > 0 {
      OperandsOfReduce(MustOccur, r.value);
      OperandsOfReduce(ShouldOccur, r.value);
      assert r.value == seq(|cs|, i requires 0 <= i < |cs| => GetCondition(m, cs[i]).value);
    }
  }

  /** NOT wraps its compiled child in `must_not`, and fails exactly when the child does. */
  lemma NotClause(m: Mapping, child: Condition)
    ensures GetCondition(m, Not(child)).Ok? <==> GetCondition(m, child).Ok?
    ensures GetCondition(m, child).Ok? ==>
              GetCondition(m, Not(child)) == Ok(MustNot(GetCondition(m, child).value))
    ensures GetCondition(m, child).Err? ==> GetCondition(m, Not(child)) == GetCondition(m, child)
  {
  }

  /** True when the two mappings give the same term support for every EQUALS and IN field of `c`. */
  ghost predicate SameTermSupport(m1: Mapping, m2: Mapping, c: Condition)
    decreases c
  {
    match c
    case Compare(op, field, _) =>
      (op == Equals || op == In) ==> SupportTermQuery(m1, field) == SupportTermQuery(m2, field)
    case And(cs) => forall i :: 0 <= i < |cs| ==> SameTermSupport(m1, m2, cs[i])
    case Or(cs) => forall i :: 0 <= i < |cs| ==> SameTermSupport(m1, m2, cs[i])
    case Not(child) => SameTermSupport(m1, m2, child)
  }

  /**
    The mapping is consulted only to choose between `term` and `match` for
    EQUALS and IN: two mappings that agree there compile every condition
    identically.
   */
  lemma {:induction false} MappingOnlyChoosesTermOrMatch(m1: Mapping, m2: Mapping, c: Condition)
    requires SameTermSupport(m1, m2, c)
    ensures GetCondition(m1, c) == GetCondition(m2, c)
    decreases c
  {
    match c
    case Compare(op, field, v) =>
      if op == In {
        var vs := ConvertToList(v);
        assert seq(|vs|, i requires 0 <= i < |vs| => TermOrMatch(m1, field, vs[i]))
            == seq(|vs|, i requires 0 <= i < |vs| => TermOrMatch(m2, field, vs[i]));
      }
    case And(cs) =>
      forall i | 0 <= i < |cs| { MappingOnlyChoosesTermOrMatch(m1, m2, cs[i]); }
      ChildrenAgree(m1, m2, cs);
    case Or(cs) =>
      forall i | 0 <= i < |cs| { MappingOnlyChoosesTermOrMatch(m1, m2, cs[i]); }
      ChildrenAgree(m1, m2, cs);
    case Not(child) =>
      MappingOnlyChoosesTermOrMatch(m1, m2, child);
  }

  /** Children that compile alike under two mappings make whole child lists compile alike. */
  lemma ChildrenAgree(m1: Mapping, m2: Mapping, cs: seq<Condition>)
    requires forall i :: 0 <= i < |cs| ==> GetCondition(m1, cs[i]) == GetCondition(m2, cs[i])
    ensures GetConditions(m1, cs) == GetConditions(m2, cs)
  {
    var r1, r2 := GetConditions(m1, cs), GetConditions(m2, cs);
    if r1.Ok? {
      assert r1.value == r2.value;
    }
  }

  // ---------------------------------------------------------------------
  // The whole query
  // ---------------------------------------------------------------------

  /** The clause restricting the search to the query's collection. */
  function CollectionClause(m: Mapping, name: string): Clause {
    TermOrMatch(m, Entity, Scalar(Text(name)))
  }

  /**
    `select` after the mapping has been fetched: the collection clause alone
    when there is no condition, and otherwise `must` of the collection clause
    and the compiled condition; a condition that does not compile makes the
    query fail with that condition's error.
   */
  function Select(m: Mapping, q: Query): (r: Result<Clause, Error>)
    ensures q.condition.None? ==> r == Ok(CollectionClause(m, q.name))
    ensures q.condition.Some? ==> (r.Ok? <==> Compilable(q.condition.value))
    ensures q.condition.Some? && r.Ok? ==>
              r.value.Must? && r.value.left == CollectionClause(m, q.name)
              && Ok(r.value.right) == GetCondition(m, q.condition.value)
    ensures r.Err? ==> q.condition.Some? && r == GetCondition(m, q.condition.value)
  {
    match q.condition
    case None => Ok(CollectionClause(m, q.name))
    case Some(c) =>
      CompileSucceedsIff(m, c);
      match GetCondition(m, c)
      case Err(e) => Err(e)
      case Ok(cond) => Ok(Must(CollectionClause(m, q.name), cond))
  }

  /** Two children that compile give exactly one `must` (AND) or one `should` (OR) node. */
  lemma BinaryJunction(m: Mapping, a: Condition, b: Condition)
    requires GetCondition(m, a).Ok? && GetCondition(m, b).Ok?
    ensures GetCondition(m, And([a, b])) == Ok(Must(GetCondition(m, a).value, GetCondition(m, b).value))
    ensures GetCondition(m, Or([a, b])) == Ok(Should(GetCondition(m, a).value, GetCondition(m, b).value))
  {
    var qa, qb := GetCondition(m, a).value, GetCondition(m, b).value;
    PairConditions(m, a, b);
    PairReduce(MustOccur, qa, qb);
    PairReduce(ShouldOccur, qa, qb);
  }

  lemma PairConditions(m: Mapping, a: Condition, b: Condition)
    requires GetCondition(m, a).Ok? && GetCondition(m, b).Ok?
    ensures GetConditions(m, [a, b]) == Ok([GetCondition(m, a).value, GetCondition(m, b).value])
  {
    var r := GetConditions(m, [a, b]);
    assert r.Ok? && r.value == [GetCondition(m, a).value, GetCondition(m, b).value];
  }

  lemma PairReduce(occur: Occur, qa: Clause, qb: Clause)
    ensures Reduce(occur, [qa, qb]) == Combine(occur, qa, qb)
  {
    assert [qa, qb][..1] == [qa];
  }

  /** The condition of the people scenario, compiled against its mapping. */
  lemma PeopleCondition(m: Mapping, age: Condition, nyc: Condition, la: Condition)
    requires m == map["age" := Other, "city" := Keyword]
    requires age == Compare(Equals, "age", Scalar(Number(30)))
    requires nyc == Compare(Equals, "city", Scalar(Text("NYC")))
    requires la == Compare(Equals, "city", Scalar(Text("LA")))
    ensures GetCondition(m, And([age, Or([nyc, la])]))
         == Ok(Must(Match("age", Scalar(Number(30))),
                    Should(Term("city", Scalar(Text("NYC"))), Term("city", Scalar(Text("LA"))))))
  {
    SupportUndotted(m, "age");
    SupportUndotted(m, "city");
    assert GetCondition(m, nyc) == Ok(Term("city", Scalar(Text("NYC"))));
    assert GetCondition(m, la) == Ok(Term("city", Scalar(Text("LA"))));
    assert GetCondition(m, age) == Ok(Match("age", Scalar(Number(30))));
    BinaryJunction(m, nyc, la);
    BinaryJunction(m, age, Or([nyc, la]));
  }

  /**
    The people scenario: `age` is not a keyword and `city` is, so the query
    is the collection match AND (age match AND (city term OR city term)).
   */
  lemma PeopleScenario(m: Mapping, age: Condition, nyc: Condition, la: Condition)
    requires m == map["age" := Other, "city" := Keyword]
    requires age == Compare(Equals, "age", Scalar(Number(30)))
    requires nyc == Compare(Equals, "city", Scalar(Text("NYC")))
    requires la == Compare(Equals, "city", Scalar(Text("LA")))
    ensures Select(m, Query("people", Some(And([age, Or([nyc, la])]))))
         == Ok(Must(Match(Entity, Scalar(Text("people"))),
                    Must(Match("age", Scalar(Number(30))),
                         Should(Term("city", Scalar(Text("NYC"))), Term("city", Scalar(Text("LA")))))))
  {
    SupportUndotted(m, Entity);
    PeopleCondition(m, age, nyc, la);
  }
}
