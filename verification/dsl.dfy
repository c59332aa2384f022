/** The search query: how it is compiled from the request, and which places it accepts. */
module Dsl {
  import opened Wrappers

  // ---------------------------------------------------------------- queries and their meaning

  /** How a text is matched against a field. */
  datatype Operator = AnyTerm | AllTerms | MinimumShouldMatch(spec: string)

  datatype Geometry = Geometry(tag: int)

  datatype Query =
    | Term(field: string, value: string)
    | Terms(field: string, values: seq<string>)
    | Exists(field: string)
    | Match(field: string, text: string, op: Operator)
    | MultiMatch(fields: seq<string>, text: string)
    | GeoShape(field: string, shape: Geometry)
    | FunctionScore(boost: string)
    | Bool(must: seq<Query>, should: seq<Query>, filter: seq<Query>, mustNot: seq<Query>)

  /** A stored document: the values of its keyword fields, and how the text and shape searches answer on it. */
  datatype Place = Place(values: map<string, set<string>>, matches: (string, string, Operator) -> bool,
                         intersects: (string, Geometry) -> bool)
  {
    predicate Has(field: string, value: string) {
      field in values && value in values[field]
    }
  }

  /**
   * Whether a query accepts a place. In a bool query every `must` and `filter` clause has to hold and
   * no `must_not` clause; `should` clauses are required, one of them, only where there is neither
   * `must` nor `filter`. A function score changes the score alone.
   */
  predicate Accepts(q: Query, p: Place) {
    match q
    case Term(field, value) => p.Has(field, value)
    case Terms(field, vs) => exists v :: v in vs && p.Has(field, v)
    case Exists(field) => field in p.values && p.values[field] != {}
    case Match(field, text, op) => p.matches(field, text, op)
    case MultiMatch(fields, text) => exists f :: f in fields && p.matches(f, text, AnyTerm)
    case GeoShape(field, shape) => p.intersects(field, shape)
    case FunctionScore(_) => true
    case Bool(must, should, filter, mustNot) =>
      && (forall c :: c in must ==> Accepts(c, p))
      && (forall c :: c in filter ==> Accepts(c, p))
      && (forall c :: c in mustNot ==> !Accepts(c, p))
      && (must == [] && filter == [] && should != [] ==> exists c :: c in should && Accepts(c, p))
  }

  function Not(q: Query): Query {
    Bool([], [], [], [q])
  }

  function AnyOf(a: Query, b: Query): Query {
    Bool([], [a, b], [], [])
  }

  lemma NotMeans(q: Query, p: Place)
    ensures Accepts(Not(q), p) <==> !Accepts(q, p)
  {
    assert q in Not(q).mustNot;
  }

  lemma AnyOfMeans(a: Query, b: Query, p: Place)
    ensures Accepts(AnyOf(a, b), p) <==> Accepts(a, p) || Accepts(b, p)
  {
    assert a in AnyOf(a, b).should && b in AnyOf(a, b).should;
  }

  // ---------------------------------------------------------------- the request

  datatype QueryType = PREFIX | FUZZY

  datatype Filters = Filters(shape: Option<(Geometry, seq<string>)>, poiTypes: Option<seq<string>>,
                             zoneTypes: Option<seq<string>>, coord: bool)

  // ---------------------------------------------------------------- counting words

  /** White space as the language's text splitting has it. */
  predicate IsWhitespace(c: char) {
    var n := c as int;
    || 0x9 <= n <= 0xD || n == 0x20 || n == 0x85 || n == 0xA0 || n == 0x1680 || 0x2000 <= n <= 0x200A
    || n == 0x2028 || n == 0x2029 || n == 0x202F || n == 0x205F || n == 0x3000
  }

  /** The number of words, `inside` telling whether a word was under way before. */
  function WordCount(q: string, inside: bool): nat {
    if q == "" then 0
    else (if !inside && !IsWhitespace(q[0]) then 1 else 0) + WordCount(q[1..], !IsWhitespace(q[0]))
  }

  /** A word, white space, and a word again. */
  ghost predicate HasTwoWords(q: string) {
    exists i, j, k :: TwoWordsAt(q, i, j, k)
  }

  predicate TwoWordsAt(q: string, i: int, j: int, k: int) {
    0 <= i < j < k < |q| && !IsWhitespace(q[i]) && IsWhitespace(q[j]) && !IsWhitespace(q[k])
  }

  /** White space, and a word after it. */
  ghost predicate HasLaterWord(q: string) {
    exists j, k :: LaterWordAt(q, j, k)
  }

  predicate LaterWordAt(q: string, j: int, k: int) {
    0 <= j < k < |q| && IsWhitespace(q[j]) && !IsWhitespace(q[k])
  }

  ghost predicate HasWord(q: string) {
    exists k :: 0 <= k < |q| && !IsWhitespace(q[k])
  }

  lemma {:induction false} CountOutside(q: string)
    ensures WordCount(q, false) > 0 <==> HasWord(q)
  {
    if q != "" {
      CountOutside(q[1..]);
      if !IsWhitespace(q[0]) {
        assert HasWord(q);
      } else {
        HasWordTail(q);
      }
    }
  }

  lemma HasWordTail(q: string)
    requires q != "" && IsWhitespace(q[0])
    ensures HasWord(q) <==> HasWord(q[1..])
  {
    if HasWord(q) {
      var k :| 0 <= k < |q| && !IsWhitespace(q[k]);
      assert q[1..][k - 1] == q[k];
    }
    if HasWord(q[1..]) {
      var k :| 0 <= k < |q[1..]| && !IsWhitespace(q[1..][k]);
      assert q[k + 1] == q[1..][k];
    }
  }

  lemma LaterWordAfterSpace(q: string)
    requires q != "" && IsWhitespace(q[0])
    ensures HasLaterWord(q) <==> HasWord(q[1..])
  {
    var tail := q[1..];
    if HasWord(tail) {
      var k :| 0 <= k < |tail| && !IsWhitespace(tail[k]);
      assert LaterWordAt(q, 0, k + 1);
    }
    if HasLaterWord(q) {
      var j, k :| LaterWordAt(q, j, k);
      assert !IsWhitespace(tail[k - 1]);
    }
  }

  lemma LaterWordAfterWord(q: string)
    requires q != "" && !IsWhitespace(q[0])
    ensures HasLaterWord(q) <==> HasLaterWord(q[1..])
  {
    var tail := q[1..];
    if HasLaterWord(tail) {
      var j, k :| LaterWordAt(tail, j, k);
      assert LaterWordAt(q, j + 1, k + 1);
    }
    if HasLaterWord(q) {
      var j, k :| LaterWordAt(q, j, k);
      assert LaterWordAt(tail, j - 1, k - 1);
    }
  }

  lemma {:induction false} CountInside(q: string)
    ensures WordCount(q, true) > 0 <==> HasLaterWord(q)
  {
    if q != "" {
      if IsWhitespace(q[0]) {
        CountOutside(q[1..]);
        LaterWordAfterSpace(q);
      } else {
        CountInside(q[1..]);
        LaterWordAfterWord(q);
      }
    }
  }

  lemma TwoWordsAfterSpace(q: string)
    requires q != "" && IsWhitespace(q[0])
    ensures HasTwoWords(q) <==> HasTwoWords(q[1..])
  {
    var tail := q[1..];
    if HasTwoWords(q) {
      var i, j, k :| TwoWordsAt(q, i, j, k);
      assert TwoWordsAt(tail, i - 1, j - 1, k - 1);
    }
    if HasTwoWords(tail) {
      var i, j, k :| TwoWordsAt(tail, i, j, k);
      assert TwoWordsAt(q, i + 1, j + 1, k + 1);
    }
  }

  lemma TwoWordsAfterWord(q: string)
    requires q != "" && !IsWhitespace(q[0])
    ensures HasTwoWords(q) <==> HasLaterWord(q[1..])
  {
    var tail := q[1..];
    if HasLaterWord(tail) {
      var j, k :| LaterWordAt(tail, j, k);
      assert TwoWordsAt(q, 0, j + 1, k + 1);
    }
    if HasTwoWords(q) {
      var i, j, k :| TwoWordsAt(q, i, j, k);
      assert LaterWordAt(tail, j - 1, k - 1);
    }
  }

  /** More than one word is counted exactly when white space separates two words. */
  lemma {:induction false} SeveralWords(q: string)
    ensures WordCount(q, false) > 1 <==> HasTwoWords(q)
  {
    if q != "" {
      if IsWhitespace(q[0]) {
        SeveralWords(q[1..]);
        TwoWordsAfterSpace(q);
      } else {
        CountInside(q[1..]);
        TwoWordsAfterWord(q);
      }
    }
  }

  ghost predicate Blank(q: string) {
    forall c :: c in q ==> IsWhitespace(c)
  }

  lemma NotBlankAt(q: string) returns (i: nat)
    requires !Blank(q)
    ensures i < |q| && !IsWhitespace(q[i])
  {
    var c :| c in q && !IsWhitespace(c);
    i :| i < |q| && q[i] == c;
  }

  /** Two texts that are not blank, with a space, a tab or a line break between them, make several words. */
  lemma JoinedTextsAreSeveralWords(a: string, b: string, separator: char)
    requires !Blank(a) && !Blank(b)
    requires separator == ' ' || separator == '\t' || separator == '\n' || separator == '\r'
    ensures HasTwoWords(a + [separator] + b) && WordCount(a + [separator] + b, false) > 1
  {
    var q := a + [separator] + b;
    var i := NotBlankAt(a);
    var k := NotBlankAt(b);
    assert q[i] == a[i] && q[|a|] == separator && q[|a| + 1 + k] == b[k];
    assert TwoWordsAt(q, i, |a|, |a| + 1 + k);
    SeveralWords(q);
  }

  /** Letters, digits, hyphens and apostrophes alone make at most one word. */
  lemma LettersAreOneWord(q: string)
    requires forall c :: c in q ==> 'a' <= c <= 'z' || 'A' <= c <= 'Z' || '0' <= c <= '9' || c == '-' || c == '\''
    ensures !HasTwoWords(q) && WordCount(q, false) <= 1
  {
    forall j | 0 <= j < |q| ensures !IsWhitespace(q[j]) {
      assert q[j] in q;
    }
    SeveralWords(q);
  }

  // ---------------------------------------------------------------- compiling the clauses

  function BuildShapeQuery(shape: Geometry, scope: seq<string>): Query {
    AnyOf(Bool([Terms("type", scope)], [], [GeoShape("approx_coord", shape)], []), Not(Terms("type", scope)))
  }

  function BuildPoiTypesFilter(poiTypes: seq<string>): Query {
    AnyOf(Bool([Term("type", "poi"), Terms("poi_type.id", poiTypes)], [], [], []), Not(Term("type", "poi")))
  }

  function BuildZoneTypesFilter(zoneTypes: seq<string>): Query {
    AnyOf(Bool([Term("type", "admin"), Terms("zone_type", zoneTypes)], [], [], []), Not(Term("type", "admin")))
  }

  function BuildHouseNumberCondition(q: string): Query {
    if WordCount(q, false) > 1
    then AnyOf(Not(Exists("house_number")), Match("house_number", q, AnyTerm))
    else Not(Exists("house_number"))
  }

  function BuildMatchingCondition(q: string, queryType: QueryType): Query {
    match queryType
    case PREFIX => Match("full_label.prefix", q, AllTerms)
    case FUZZY => Match("full_label.ngram", q, MinimumShouldMatch("1<-1 3<-2 9<-4 20<25%"))
  }

  const PLACE_TYPES := ["admin", "addr", "stop", "poi", "street"]

  function BuildPlaceTypeBoost(): Query {
    Bool([], [Term("type", "admin"), Term("type", "addr"), Term("type", "stop"), Term("type", "poi"), Term("type", "street")],
         [], [])
  }

  method BuildFilters(f: Filters) returns (filters: seq<Query>)
    ensures forall p :: (forall c :: c in filters ==> Accepts(c, p)) <==> InRequestedScope(f, p)
  {
    filters := [];
    if f.shape.Some? {
      filters := filters + [BuildShapeQuery(f.shape.value.0, f.shape.value.1)];
    }
    ghost var shaped := filters;
    if f.poiTypes.Some? {
      filters := filters + [BuildPoiTypesFilter(f.poiTypes.value)];
    }
    ghost var typed := filters;
    if f.zoneTypes.Some? {
      filters := filters + [BuildZoneTypesFilter(f.zoneTypes.value)];
    }
    forall p ensures (forall c :: c in filters ==> Accepts(c, p)) <==> InRequestedScope(f, p) {
      ClausesMean(f, p);
      if f.shape.Some? {
        assert BuildShapeQuery(f.shape.value.0, f.shape.value.1) in shaped;
      }
      if f.poiTypes.Some? {
        assert BuildPoiTypesFilter(f.poiTypes.value) in typed;
      }
      if f.zoneTypes.Some? {
        assert BuildZoneTypesFilter(f.zoneTypes.value) in filters;
      }
      assert forall c :: c in filters ==>
        || (f.shape.Some? && c == BuildShapeQuery(f.shape.value.0, f.shape.value.1))
        || (f.poiTypes.Some? && c == BuildPoiTypesFilter(f.poiTypes.value))
        || (f.zoneTypes.Some? && c == BuildZoneTypesFilter(f.zoneTypes.value));
    }
  }

  /** The texts searched for, each clause on its fields. */
  function TextClauses(q: string, lang: string, queryType: QueryType): seq<Query> {
    [MultiMatch(["name", "names." + lang], q),
     MultiMatch(["label", "label." + lang], q),
     MultiMatch(["label.prefix", "label." + lang + ".prefix"], q),
     Match("zip_codes", q, AnyTerm),
     Match("house_number", q, AnyTerm)]
    + if queryType.FUZZY? then [MultiMatch(["label.ngram", "label." + lang + ".ngram"], q)] else []
  }

  method BuildStringQuery(q: string, lang: string, queryType: QueryType, coord: bool) returns (query: Query)
    ensures query == Bool([], TextClauses(q, lang, queryType), [], [])
  {
    var should := [];
    should := should + [MultiMatch(["name", "names." + lang], q)];
    should := should + [MultiMatch(["label", "label." + lang], q)];
    should := should + [MultiMatch(["label.prefix", "label." + lang + ".prefix"], q)];
    should := should + [Match("zip_codes", q, AnyTerm)];
    should := should + [Match("house_number", q, AnyTerm)];
    if queryType.FUZZY? {
      // the position only changes the boost of this clause
      if coord {
        should := should + [MultiMatch(["label.ngram", "label." + lang + ".ngram"], q)];
      } else {
        should := should + [MultiMatch(["label.ngram", "label." + lang + ".ngram"], q)];
      }
    }
    query := Bool([], should, [], []);
  }

  method BuildBoosts(queryType: QueryType, coord: bool) returns (boosts: seq<Query>)
    ensures boosts == [FunctionScore("weight")] + (if queryType.PREFIX? then [FunctionScore("admin weight")] else [])
                      + if coord then [FunctionScore("proximity")] else []
  {
    boosts := [FunctionScore("weight")];
    if queryType.PREFIX? {
      boosts := boosts + [FunctionScore("admin weight")];
    }
    if coord {
      boosts := boosts + [FunctionScore("proximity")];
    }
  }

  // ---------------------------------------------------------------- what the query accepts

  predicate HasType(p: Place, types: seq<string>) {
    exists t :: t in types && p.Has("type", t)
  }

  predicate HasAny(p: Place, field: string, values: seq<string>) {
    exists v :: v in values && p.Has(field, v)
  }

  /** The place meets the shape, point-of-interest and zone restrictions of the request. */
  predicate InRequestedScope(f: Filters, p: Place) {
    && (f.shape.Some? && HasType(p, f.shape.value.1) ==> p.intersects("approx_coord", f.shape.value.0))
    && (f.poiTypes.Some? && p.Has("type", "poi") ==> HasAny(p, "poi_type.id", f.poiTypes.value))
    && (f.zoneTypes.Some? && p.Has("type", "admin") ==> HasAny(p, "zone_type", f.zoneTypes.value))
  }

  predicate HasHouseNumber(p: Place) {
    "house_number" in p.values && p.values["house_number"] != {}
  }

  /** A house number must be matched by a query of several words; a query of one word accepts none. */
  ghost predicate HouseNumberRule(q: string, p: Place) {
    HasHouseNumber(p) ==> HasTwoWords(q) && p.matches("house_number", q, AnyTerm)
  }

  /** The fields a text is searched in, in the requested language too; errors in spelling are allowed for in fuzzy searches. */
  function TextFields(lang: string, queryType: QueryType): set<string> {
    {"name", "names." + lang, "label", "label." + lang, "label.prefix", "label." + lang + ".prefix",
     "zip_codes", "house_number"}
    + if queryType.FUZZY? then {"label.ngram", "label." + lang + ".ngram"} else {}
  }

  /** The text is found in one of its fields, and covers the full label well enough. */
  predicate TextMatches(q: string, lang: string, queryType: QueryType, p: Place) {
    && (exists f :: f in TextFields(lang, queryType) && p.matches(f, q, AnyTerm))
    && match queryType
       case PREFIX => p.matches("full_label.prefix", q, AllTerms)
       case FUZZY => p.matches("full_label.ngram", q, MinimumShouldMatch("1<-1 3<-2 9<-4 20<25%"))
  }

  lemma TypedClauseMeans(typ: string, field: string, values: seq<string>, p: Place)
    ensures Accepts(AnyOf(Bool([Term("type", typ), Terms(field, values)], [], [], []), Not(Term("type", typ))), p)
       <==> (p.Has("type", typ) ==> HasAny(p, field, values))
  {
    var both := Bool([Term("type", typ), Terms(field, values)], [], [], []);
    AnyOfMeans(both, Not(Term("type", typ)), p);
    NotMeans(Term("type", typ), p);
    assert both.must[0] == Term("type", typ) && both.must[1] == Terms(field, values);
    assert Accepts(Term("type", typ), p) <==> p.Has("type", typ);
    assert Accepts(Terms(field, values), p) <==> HasAny(p, field, values);
  }

  lemma ShapeClauseMeans(shape: Geometry, scope: seq<string>, p: Place)
    ensures Accepts(BuildShapeQuery(shape, scope), p)
       <==> (HasType(p, scope) ==> p.intersects("approx_coord", shape))
  {
    var inside := Bool([Terms("type", scope)], [], [GeoShape("approx_coord", shape)], []);
    AnyOfMeans(inside, Not(Terms("type", scope)), p);
    NotMeans(Terms("type", scope), p);
    assert inside.must[0] == Terms("type", scope) && inside.filter[0] == GeoShape("approx_coord", shape);
    assert Accepts(Terms("type", scope), p) <==> HasType(p, scope);
    assert Accepts(GeoShape("approx_coord", shape), p) <==> p.intersects("approx_coord", shape);
  }

  lemma ClausesMean(f: Filters, p: Place)
    ensures f.shape.Some? ==> (Accepts(BuildShapeQuery(f.shape.value.0, f.shape.value.1), p)
              <==> (HasType(p, f.shape.value.1) ==> p.intersects("approx_coord", f.shape.value.0)))
    ensures f.poiTypes.Some? ==> (Accepts(BuildPoiTypesFilter(f.poiTypes.value), p)
              <==> (p.Has("type", "poi") ==> HasAny(p, "poi_type.id", f.poiTypes.value)))
    ensures f.zoneTypes.Some? ==> (Accepts(BuildZoneTypesFilter(f.zoneTypes.value), p)
              <==> (p.Has("type", "admin") ==> HasAny(p, "zone_type", f.zoneTypes.value)))
  {
    if f.shape.Some? {
      ShapeClauseMeans(f.shape.value.0, f.shape.value.1, p);
    }
    if f.poiTypes.Some? {
      TypedClauseMeans("poi", "poi_type.id", f.poiTypes.value, p);
    }
    if f.zoneTypes.Some? {
      TypedClauseMeans("admin", "zone_type", f.zoneTypes.value, p);
    }
  }

  /** The compiled house-number condition is the rule. */
  lemma HouseNumberConditionMeans(q: string, p: Place)
    ensures Accepts(BuildHouseNumberCondition(q), p) <==> HouseNumberRule(q, p)
  {
    SeveralWords(q);
    NotMeans(Exists("house_number"), p);
    AnyOfMeans(Not(Exists("house_number")), Match("house_number", q, AnyTerm), p);
    assert Accepts(Exists("house_number"), p) <==> HasHouseNumber(p);
    assert Accepts(Match("house_number", q, AnyTerm), p) <==> p.matches("house_number", q, AnyTerm);
  }

  /** Which places the whole query accepts. */
  ghost predicate Wanted(q: string, f: Filters, lang: string, queryType: QueryType, p: Place) {
    && IsPlace(p)
    && TextMatches(q, lang, queryType, p)
    && InRequestedScope(f, p)
    && HouseNumberRule(q, p)
  }

  /** The text is searched in its fields by some clause, and by no clause elsewhere. */
  lemma TextClausesMean(q: string, lang: string, queryType: QueryType, p: Place)
    ensures (exists c :: c in TextClauses(q, lang, queryType) && Accepts(c, p))
       <==> exists f :: f in TextFields(lang, queryType) && p.matches(f, q, AnyTerm)
  {
    var cs := TextClauses(q, lang, queryType);
    forall c | c in cs && Accepts(c, p)
      ensures exists f :: f in TextFields(lang, queryType) && p.matches(f, q, AnyTerm)
    {
      if c.MultiMatch? {
        var f :| f in c.fields && p.matches(f, c.text, AnyTerm);
        assert f in TextFields(lang, queryType);
      } else {
        assert c.Match? && c.field in TextFields(lang, queryType);
      }
    }
    forall f | f in TextFields(lang, queryType) && p.matches(f, q, AnyTerm)
      ensures exists c :: c in cs && Accepts(c, p)
    {
      ClauseOfField(q, lang, queryType, f);
      var c :| c in cs && Searches(c, q, f);
      assert Accepts(c, p);
    }
  }

  ghost predicate Searches(c: Query, q: string, f: string) {
    || (c.MultiMatch? && c.text == q && f in c.fields)
    || c == Match(f, q, AnyTerm)
  }

  lemma ClauseOfField(q: string, lang: string, queryType: QueryType, f: string)
    requires f in TextFields(lang, queryType)
    ensures exists c :: c in TextClauses(q, lang, queryType) && Searches(c, q, f)
  {
    var cs := TextClauses(q, lang, queryType);
    var i := if f in {"name", "names." + lang} then 0
             else if f in {"label", "label." + lang} then 1
             else if f in {"label.prefix", "label." + lang + ".prefix"} then 2
             else if f == "zip_codes" then 3
             else if f == "house_number" then 4
             else 5;
    assert cs[i] in cs && Searches(cs[i], q, f);
  }

  /** A bool query of two `must` clauses and the request's filters accepts what they all accept, whatever the boosts. */
  lemma WholeQueryMeans(a: Query, b: Query, boosts: seq<Query>, scope: seq<Query>, m: Query, h: Query, p: Place)
    ensures Accepts(Bool([a, b], boosts, scope + [m] + [h], []), p)
       <==> Accepts(a, p) && Accepts(b, p) && (forall c :: c in scope ==> Accepts(c, p)) && Accepts(m, p) && Accepts(h, p)
  {
    var must, filter := [a, b], scope + [m] + [h];
    assert forall c :: c in must <==> c == a || c == b;
    assert forall c :: c in filter <==> c in scope || c == m || c == h;
  }

  lemma StringQueryMeans(clauses: seq<Query>, p: Place)
    requires clauses != []
    ensures Accepts(Bool([], clauses, [], []), p) <==> exists c :: c in clauses && Accepts(c, p)
  {
  }

  /** A place of one of the five kinds. */
  predicate IsPlace(p: Place) {
    p.Has("type", "admin") || p.Has("type", "addr") || p.Has("type", "stop") || p.Has("type", "poi") || p.Has("type", "street")
  }

  lemma FiveKinds(p: Place)
    ensures HasType(p, PLACE_TYPES) <==> IsPlace(p)
  {
    assert PLACE_TYPES[0] == "admin" && PLACE_TYPES[1] == "addr" && PLACE_TYPES[2] == "stop";
    assert PLACE_TYPES[3] == "poi" && PLACE_TYPES[4] == "street";
  }

  lemma PlaceTypeClauseMeans(p: Place)
    ensures Accepts(BuildPlaceTypeBoost(), p) <==> HasType(p, PLACE_TYPES)
  {
    var should := BuildPlaceTypeBoost().should;
    forall i | 0 <= i < 5 ensures should[i] == Term("type", PLACE_TYPES[i]) {
    }
    if HasType(p, PLACE_TYPES) {
      var i :| 0 <= i < 5 && p.Has("type", PLACE_TYPES[i]);
      assert should[i] in should && Accepts(should[i], p);
    }
    if Accepts(BuildPlaceTypeBoost(), p) {
      var c :| c in should && Accepts(c, p);
      var i :| 0 <= i < 5 && should[i] == c;
      assert PLACE_TYPES[i] in PLACE_TYPES;
    }
  }

  /** The compiled query accepts what the request wants, once its filter clauses say the requested scope. */
  lemma CompiledQueryMeans(q: string, f: Filters, lang: string, queryType: QueryType, boosts: seq<Query>,
                           scope: seq<Query>, p: Place)
    requires (forall c :: c in scope ==> Accepts(c, p)) <==> InRequestedScope(f, p)
    ensures Accepts(Compiled(q, lang, queryType, boosts, scope), p) <==> Wanted(q, f, lang, queryType, p)
  {
    WholeQueryMeans(BuildPlaceTypeBoost(), Bool([], TextClauses(q, lang, queryType), [], []), boosts, scope,
                    BuildMatchingCondition(q, queryType), BuildHouseNumberCondition(q), p);
    PlaceTypeClauseMeans(p);
    FiveKinds(p);
    TextMeans(q, lang, queryType, p);
    HouseNumberConditionMeans(q, p);
  }

  lemma TextMeans(q: string, lang: string, queryType: QueryType, p: Place)
    ensures TextMatches(q, lang, queryType, p)
       <==> Accepts(Bool([], TextClauses(q, lang, queryType), [], []), p) && Accepts(BuildMatchingCondition(q, queryType), p)
  {
    StringQueryMeans(TextClauses(q, lang, queryType), p);
    TextClausesMean(q, lang, queryType, p);
  }

  function Compiled(q: string, lang: string, queryType: QueryType, boosts: seq<Query>, scope: seq<Query>): Query {
    Bool([BuildPlaceTypeBoost(), Bool([], TextClauses(q, lang, queryType), [], [])], boosts,
         scope + [BuildMatchingCondition(q, queryType)] + [BuildHouseNumberCondition(q)], [])
  }

  /** Compiles the whole query: what it accepts is what the request wants, boosts and all. */
  method BuildQuery(q: string, f: Filters, lang: string, queryType: QueryType) returns (query: Query)
    ensures forall p :: Accepts(query, p) <==> Wanted(q, f, lang, queryType, p)
  {
    var typeQuery := BuildPlaceTypeBoost();
    var stringQuery := BuildStringQuery(q, lang, queryType, f.coord);
    var boosts := BuildBoosts(queryType, f.coord);
    var scope := BuildFilters(f);
    var filters := scope + [BuildMatchingCondition(q, queryType)];
    filters := filters + [BuildHouseNumberCondition(q)];
    query := Bool([typeQuery, stringQuery], boosts, filters, []);
    assert query == Compiled(q, lang, queryType, boosts, scope);
    forall p ensures Accepts(query, p) <==> Wanted(q, f, lang, queryType, p) {
      CompiledQueryMeans(q, f, lang, queryType, boosts, scope, p);
    }
  }
}
