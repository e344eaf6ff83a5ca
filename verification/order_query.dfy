/** `OrderQueryBuilder.CreateOrderQuery`: turns a free-text sort specification
    such as `"name,age desc"` into the ordering expression the query layer
    consumes, such as `"Name ascending, Age descending"`.

    The source always reflects over `Employee`, whatever its type argument;
    here the entity's public property names are the parameter `properties`,
    in the order reflection returns them. */
module OrderQuery {
  import opened Text

  datatype Direction = Ascending | Descending

  /** One resolved ordering clause: a declared property name and a direction. */
  datatype SortClause = SortClause(property: string, direction: Direction)

  /** The suffix that marks a token as descending, compared case-sensitively. */
  const DescSuffix: string := " desc"

  /** The separator the builder appends after every clause. */
  const ClauseSeparator: string := ", "

  /** The characters stripped from the end of the built expression. */
  const TrailingSeparators: set<char> := {',', ' '}

  predicate IsIdentifierChar(c: char) {
    'a' <= c <= 'z' || 'A' <= c <= 'Z' || '0' <= c <= '9' || c == '_'
  }

  /** A C# property name: non-empty, letters, digits and underscores only. */
  predicate IsIdentifier(name: string) {
    |name| > 0 && forall i :: 0 <= i < |name| ==> IsIdentifierChar(name[i])
  }

  /** An assumption about `Employee`, whose definition is not part of this
      model: its public properties are ASCII identifiers that differ from each
      other in more than letter case. C# itself would also allow non-ASCII
      names and names such as `Name` and `NAME` side by side. */
  predicate WellFormedSchema(properties: seq<string>) {
    (forall i :: 0 <= i < |properties| ==> IsIdentifier(properties[i])) &&
    (forall i, j :: 0 <= i < j < |properties| ==> !EqualsIgnoreCase(properties[i], properties[j]))
  }

  /** `propertyInfos.FirstOrDefault(pi => pi.Name.Equals(candidate, IgnoreCase))`:
      the first declared name equal to `candidate` up to case, if any. */
  function Lookup(properties: seq<string>, candidate: string): (r: Option<string>)
    ensures r.None? <==> forall i :: 0 <= i < |properties| ==> !EqualsIgnoreCase(properties[i], candidate)
    ensures r.Some? ==> r.value in properties && EqualsIgnoreCase(r.value, candidate)
  {
    if properties == [] then None
    else if EqualsIgnoreCase(properties[0], candidate) then Some(properties[0])
    else
      var r := Lookup(properties[1..], candidate);
      assert forall i :: 0 < i < |properties| ==> properties[i] == properties[1..][i - 1];
      r
  }

  /** `FirstOrDefault` picks the first match: when the name at `i` equals the
      candidate up to case and no earlier name does, the lookup returns the
      name at `i`, whatever later names also match. */
  lemma {:induction false} LookupFirst(properties: seq<string>, i: nat, candidate: string)
    requires i < |properties| && EqualsIgnoreCase(properties[i], candidate)
    requires forall j :: 0 <= j < i ==> !EqualsIgnoreCase(properties[j], candidate)
    ensures Lookup(properties, candidate) == Some(properties[i])
  {
    if i > 0 {
      var rest := properties[1..];
      assert !EqualsIgnoreCase(properties[0], candidate);
      assert rest[i - 1] == properties[i];
      forall j | 0 <= j < i - 1
        ensures !EqualsIgnoreCase(rest[j], candidate)
      {
        assert rest[j] == properties[j + 1];
      }
      LookupFirst(rest, i - 1, candidate);
    }
  }

  /** In a well-formed schema, any spelling of a declared name that differs
      only in case resolves to that declared name. */
  lemma {:induction false} LookupCanonical(properties: seq<string>, i: nat, candidate: string)
    requires WellFormedSchema(properties)
    requires i < |properties| && EqualsIgnoreCase(properties[i], candidate)
    ensures Lookup(properties, candidate) == Some(properties[i])
  {
    if i > 0 {
      assert !EqualsIgnoreCase(properties[0], properties[i]);
      var rest := properties[1..];
      assert rest[i - 1] == properties[i];
      assert WellFormedSchema(rest) by {
        forall a, b | 0 <= a < b < |rest|
          ensures !EqualsIgnoreCase(rest[a], rest[b])
        {
          assert rest[a] == properties[a + 1] && rest[b] == properties[b + 1];
        }
      }
      LookupCanonical(rest, i - 1, candidate);
    }
  }

  /** The clause one comma-separated token contributes, if any: blank tokens
      and tokens whose first word names no property are skipped. */
  function ParseToken(properties: seq<string>, token: string): (r: Option<SortClause>)
    ensures r.Some? <==> !IsBlank(token) &&
                         exists i :: 0 <= i < |properties| && EqualsIgnoreCase(properties[i], FirstWord(token))
    ensures r.Some? ==> r.value.property in properties &&
                        EqualsIgnoreCase(r.value.property, FirstWord(token))
    ensures r.Some? ==> (r.value.direction == Descending <==> EndsWith(token, DescSuffix))
  {
    if IsBlank(token) then None
    else
      match Lookup(properties, FirstWord(token))
      case None => None
      case Some(name) =>
        Some(SortClause(name, if EndsWith(token, DescSuffix) then Descending else Ascending))
  }

  /** A token made of a resolvable word, a space and anything else becomes a
      clause of the resolved name. */
  lemma ParseWordPair(properties: seq<string>, word: string, rest: string, name: string)
    requires ' ' !in word && word != [] && word[0] !in WhiteSpace
    requires Lookup(properties, word) == Some(name)
    ensures var token := word + " " + rest;
            ParseToken(properties, token) ==
            Some(SortClause(name, if EndsWith(token, DescSuffix) then Descending else Ascending))
  {
    var token := word + " " + rest;
    FirstWordOfPair(word, rest);
    assert token[0] == word[0];
  }

  /** A single resolvable word with no space is an ascending clause. */
  lemma ParseBareWord(properties: seq<string>, word: string, name: string)
    requires ' ' !in word && word != [] && word[0] !in WhiteSpace
    requires Lookup(properties, word) == Some(name)
    ensures ParseToken(properties, word) == Some(SortClause(name, Ascending))
  {
    assert FirstWord(word) == word;
    assert !EndsWith(word, DescSuffix);
  }

  /** The clauses a token list contributes, in token order. */
  function Clauses(properties: seq<string>, tokens: seq<string>): (r: seq<SortClause>)
    ensures |r| <= |tokens|
    ensures forall k :: 0 <= k < |r| ==> r[k].property in properties
  {
    if tokens == [] then []
    else
      var rest := Clauses(properties, tokens[1..]);
      match ParseToken(properties, tokens[0])
      case None => rest
      case Some(c) => [c] + rest
  }

  /** The tokens of a sort specification: the trimmed string split on commas.
      There is always at least one, and none holds a comma. */
  function Tokens(orderBy: string): (ts: seq<string>)
    ensures |ts| >= 1
    ensures forall i :: 0 <= i < |ts| ==> ',' !in ts[i]
  {
    Split(Trim(orderBy), ',')
  }

  /** The only token is the empty one exactly when the specification is blank. */
  lemma TokensBlankIff(orderBy: string)
    ensures Tokens(orderBy) == [[]] <==> IsBlank(orderBy)
  {
    var t := Trim(orderBy);
    TrimEmptyIffBlank(orderBy);
    if ',' in t {
      var k := IndexOf(t, ',');
      assert Tokens(orderBy) == [t[..k]] + Split(t[k + 1..], ',');
      assert |Tokens(orderBy)| > 1;
    } else {
      assert Tokens(orderBy) == [t];
    }
  }

  /** The clauses a sort specification resolves to. */
  function OrderClauses(properties: seq<string>, orderBy: string): seq<SortClause> {
    Clauses(properties, Tokens(orderBy))
  }

  function DirectionWord(d: Direction): string {
    match d
    case Ascending => "ascending"
    case Descending => "descending"
  }

  /** The text of one clause: `"<Name> <direction>"`. It ends with the last
      letter of a direction word (`RenderNotDesc` draws the consequence). */
  function Render(c: SortClause): (r: string)
    ensures |r| > 0 && r[|r| - 1] == 'g'
  {
    c.property + " " + DirectionWord(c.direction)
  }

  function Rendered(cs: seq<SortClause>): seq<string> {
    seq(|cs|, i requires 0 <= i < |cs| => Render(cs[i]))
  }

  /** The ordering expression: the clauses' text joined by `", "`. */
  function Format(cs: seq<SortClause>): string {
    Join(Rendered(cs), ClauseSeparator)
  }

  /** The reference definition of the builder's result. It is empty exactly
      when no clause resolved, and otherwise ends with a direction word. */
  function OrderExpression(properties: seq<string>, orderBy: string): (r: string)
    ensures r == [] <==> OrderClauses(properties, orderBy) == []
    ensures r == [] || r[|r| - 1] !in TrailingSeparators
  {
    var cs := OrderClauses(properties, orderBy);
    FormatShape(cs);
    Format(cs)
  }

  /** What the string builder holds after appending `"<clause>, "` for each clause. */
  function Appended(cs: seq<SortClause>): string {
    if cs == [] then [] else Render(cs[0]) + ClauseSeparator + Appended(cs[1..])
  }

  /** The body of the source's loop for one token: skip a blank token, skip a
      token whose first word names no property, otherwise emit
      `"<Name> <direction>, "`. */
  method AppendClause(properties: seq<string>, param: string) returns (text: string)
    ensures text == TokenText(properties, param)
    ensures text == [] <==> ParseToken(properties, param).None?
  {
    if IsBlank(param) {
      return [];
    }
    var objectProperty := Lookup(properties, FirstWord(param));
    if objectProperty.None? {
      return [];
    }
    var direction := if EndsWith(param, DescSuffix) then "descending" else "ascending";
    text := objectProperty.value + " " + direction + ClauseSeparator;
  }

  /** `OrderQueryBuilder.CreateOrderQuery`, step by step as the source does it:
      trim, split on commas, resolve and append each token, trim the end. */
  method CreateOrderQuery(properties: seq<string>, orderByQueryString: string) returns (orderQuery: string)
    ensures orderQuery == OrderExpression(properties, orderByQueryString)
    ensures orderQuery == [] || orderQuery[|orderQuery| - 1] !in TrailingSeparators
  {
    var orderParams := Split(Trim(orderByQueryString), ',');
    var builder: string := [];
    var i := 0;
    while i < |orderParams|
      invariant 0 <= i <= |orderParams|
      invariant builder == Appended(Clauses(properties, orderParams[..i]))
    {
      var text := AppendClause(properties, orderParams[i]);
      AppendedStep(properties, orderParams, i);
      builder := builder + text;
      i := i + 1;
    }
    assert orderParams[..i] == orderParams;
    orderQuery := TrimEnd(builder, TrailingSeparators);
    TrimBuilder(properties, orderByQueryString, builder);
  }

  /** The source's final `TrimEnd(',', ' ')` turns the builder's content into
      the reference expression. */
  lemma TrimBuilder(properties: seq<string>, orderBy: string, builder: string)
    requires builder == Appended(OrderClauses(properties, orderBy))
    ensures TrimEnd(builder, TrailingSeparators) == OrderExpression(properties, orderBy)
  {
    TrimAppended(OrderClauses(properties, orderBy));
  }

  // ---------------------------------------------------------------- lemmas

  lemma {:induction false} ClausesAppend(properties: seq<string>, a: seq<string>, b: seq<string>)
    ensures Clauses(properties, a + b) == Clauses(properties, a) + Clauses(properties, b)
  {
    if a != [] {
      assert (a + b)[0] == a[0];
      assert (a + b)[1..] == a[1..] + b;
      ClausesAppend(properties, a[1..], b);
      var x := Clauses(properties, a[1..]);
      var y := Clauses(properties, b);
      match ParseToken(properties, a[0])
      case None =>
      case Some(c) =>
        assert [c] + (x + y) == ([c] + x) + y;
    } else {
      assert a + b == b;
    }
  }

  /** A token that resolves to nothing is skipped, not an error: removing it
      leaves the clause list unchanged. */
  lemma UnknownTokenSkipped(properties: seq<string>, before: seq<string>, token: string, after: seq<string>)
    requires Lookup(properties, FirstWord(token)).None?
    ensures Clauses(properties, before + [token] + after) == Clauses(properties, before + after)
  {
    ClausesAppend(properties, before + [token], after);
    ClausesAppend(properties, before, [token]);
    ClausesAppend(properties, before, after);
  }

  /** No clause comes out exactly when every token is blank or unknown. */
  lemma {:induction false} ClausesEmptyIff(properties: seq<string>, tokens: seq<string>)
    ensures Clauses(properties, tokens) == [] <==>
            forall k :: 0 <= k < |tokens| ==> ParseToken(properties, tokens[k]).None?
  {
    if tokens != [] {
      ClausesEmptyIff(properties, tokens[1..]);
      assert forall k :: 0 < k < |tokens| ==> tokens[k] == tokens[1..][k - 1];
    }
  }

  /** The clauses of a single token: its clause, if it has one. */
  lemma ClausesOfOne(properties: seq<string>, t: string)
    ensures Clauses(properties, [t]) ==
            match ParseToken(properties, t) case None => [] case Some(c) => [c]
  {
    assert [t][1..] == [];
  }

  /** The clauses of two tokens: those of the first, then those of the second. */
  lemma ClausesOfTwo(properties: seq<string>, t0: string, t1: string)
    ensures Clauses(properties, [t0, t1]) == Clauses(properties, [t0]) + Clauses(properties, [t1])
  {
    ClausesAppend(properties, [t0], [t1]);
    assert [t0] + [t1] == [t0, t1];
  }

  /** What one more token adds to the builder. */
  function TokenText(properties: seq<string>, token: string): string {
    match ParseToken(properties, token)
    case None => []
    case Some(c) => Render(c) + ClauseSeparator
  }

  lemma AppendedStep(properties: seq<string>, tokens: seq<string>, i: nat)
    requires i < |tokens|
    ensures Appended(Clauses(properties, tokens[..i + 1])) ==
            Appended(Clauses(properties, tokens[..i])) + TokenText(properties, tokens[i])
  {
    assert tokens[..i + 1] == tokens[..i] + [tokens[i]];
    ClausesAppend(properties, tokens[..i], [tokens[i]]);
    AppendedConcat(Clauses(properties, tokens[..i]), Clauses(properties, [tokens[i]]));
  }

  lemma {:induction false} AppendedConcat(a: seq<SortClause>, b: seq<SortClause>)
    ensures Appended(a + b) == Appended(a) + Appended(b)
  {
    if a != [] {
      assert (a + b)[0] == a[0];
      assert (a + b)[1..] == a[1..] + b;
      AppendedConcat(a[1..], b);
      var h := Render(a[0]) + ClauseSeparator;
      assert h + (Appended(a[1..]) + Appended(b)) == (h + Appended(a[1..])) + Appended(b);
    } else {
      assert a + b == b;
    }
  }

  /** The builder's content is the joined expression plus one trailing `", "`. */
  lemma {:induction false} AppendedIsFormatPlusSeparator(cs: seq<SortClause>)
    requires cs != []
    ensures Appended(cs) == Format(cs) + ClauseSeparator
  {
    if |cs| > 1 {
      AppendedIsFormatPlusSeparator(cs[1..]);
      assert Rendered(cs)[1..] == Rendered(cs[1..]);
    }
  }

  /** The expression of a clause list is empty exactly when the list is, and
      otherwise ends with the last letter of a direction word. */
  lemma FormatShape(cs: seq<SortClause>)
    ensures Format(cs) == [] <==> cs == []
    ensures Format(cs) == [] || Format(cs)[|Format(cs)| - 1] !in TrailingSeparators
  {
    if cs == [] {
      assert Rendered(cs) == [];
    } else {
      FormatLast(cs);
    }
  }

  lemma FormatLast(cs: seq<SortClause>)
    requires cs != []
    ensures |Format(cs)| > 0 && Format(cs)[|Format(cs)| - 1] == 'g'
  {
    var rs := Rendered(cs);
    assert rs[|rs| - 1] == Render(cs[|cs| - 1]);
    JoinLast(rs, ClauseSeparator);
  }

  lemma {:induction false} JoinLast(parts: seq<string>, sep: string)
    requires |parts| >= 1 && |parts[|parts| - 1]| > 0
    ensures var j := Join(parts, sep); |j| > 0 && j[|j| - 1] == parts[|parts| - 1][|parts[|parts| - 1]| - 1]
  {
    if |parts| > 1 {
      JoinLast(parts[1..], sep);
    }
  }

  /** Trimming `','` and `' '` from the builder's content removes exactly the
      final separator. */
  lemma TrimAppended(cs: seq<SortClause>)
    ensures TrimEnd(Appended(cs), TrailingSeparators) == Format(cs)
  {
    if cs != [] {
      AppendedIsFormatPlusSeparator(cs);
      FormatLast(cs);
      TrimEndUnique(Appended(cs), TrailingSeparators, Format(cs));
    }
  }

  /** An empty or all-whitespace specification yields the empty expression. */
  lemma BlankInputYieldsEmpty(properties: seq<string>, orderBy: string)
    requires IsBlank(orderBy)
    ensures OrderExpression(properties, orderBy) == []
  {
    assert Tokens(orderBy) == [[]];
  }

  /** The expression is empty exactly when every token is blank or unknown. */
  lemma ExpressionEmptyIff(properties: seq<string>, orderBy: string)
    ensures OrderExpression(properties, orderBy) == [] <==>
            forall k :: 0 <= k < |Tokens(orderBy)| ==> ParseToken(properties, Tokens(orderBy)[k]).None?
  {
    FormatShape(OrderClauses(properties, orderBy));
    ClausesEmptyIff(properties, Tokens(orderBy));
  }

  /** A token that begins with a space, such as the part after `", "`, has an
      empty first word, which names no property, so it is dropped. */
  lemma LeadingSpaceDropped(properties: seq<string>, token: string)
    requires forall i :: 0 <= i < |properties| ==> properties[i] != []
    requires |token| > 0 && token[0] == ' '
    ensures FirstWord(token) == []
    ensures ParseToken(properties, token).None?
  {
    FirstWordOfLeadingSpace(token);
    assert forall i :: 0 <= i < |properties| ==> |Fold(properties[i])| > 0;
  }

  /** The tokens of a joined expression: the first clause as is, every later
      one behind the space that followed its comma. */
  function SplitTokens(rs: seq<string>): (ts: seq<string>)
    requires |rs| >= 1
    ensures |ts| == |rs| && ts[0] == rs[0]
    ensures forall i :: 0 < i < |rs| ==> ts[i] == " " + rs[i]
  {
    [rs[0]] + seq(|rs| - 1, i requires 0 <= i < |rs| - 1 => " " + rs[i + 1])
  }

  lemma {:induction false} JoinCommaSpace(rs: seq<string>)
    requires |rs| >= 1
    ensures Join(rs, ClauseSeparator) == Join(SplitTokens(rs), [','])
  {
    if |rs| > 1 {
      JoinCommaSpace(rs[1..]);
      var ts := SplitTokens(rs);
      var ts' := SplitTokens(rs[1..]);
      assert ts[1..] == [" " + ts'[0]] + ts'[1..];
      JoinPrependFirst(" ", ts', [',']);
    }
  }

  /** A declared name of a well-formed schema holds neither commas nor spaces. */
  lemma DeclaredNameIsPlain(properties: seq<string>, name: string)
    requires WellFormedSchema(properties) && name in properties
    ensures |name| > 0 && IsIdentifierChar(name[0])
    ensures ',' !in name && ' ' !in name
  {
    var i :| 0 <= i < |properties| && properties[i] == name;
    assert IsIdentifier(properties[i]);
    assert forall k :: 0 <= k < |name| ==> IsIdentifierChar(name[k]);
  }

  /** A non-empty expression starts with a name and ends with a direction
      word, so `Trim` leaves it alone. */
  lemma FormatUnpadded(properties: seq<string>, cs: seq<SortClause>)
    requires WellFormedSchema(properties)
    requires cs != [] && cs[0].property in properties
    ensures Trim(Format(cs)) == Format(cs)
  {
    DeclaredNameIsPlain(properties, cs[0].property);
    FormatLast(cs);
    assert Format(cs)[0] == Rendered(cs)[0][0] == cs[0].property[0];
    TrimUnpadded(Format(cs));
  }

  /** No comma occurs in the tokens of an expression over declared names. */
  lemma SplitTokensCommaFree(properties: seq<string>, cs: seq<SortClause>)
    requires WellFormedSchema(properties)
    requires forall k :: 0 <= k < |cs| ==> cs[k].property in properties
    requires cs != []
    ensures var ts := SplitTokens(Rendered(cs));
            forall k :: 0 <= k < |ts| ==> ',' !in ts[k]
  {
    var ts := SplitTokens(Rendered(cs));
    forall k | 0 <= k < |ts|
      ensures ',' !in ts[k]
    {
      RenderCommaFree(properties, cs[k]);
    }
  }

  lemma RenderCommaFree(properties: seq<string>, c: SortClause)
    requires WellFormedSchema(properties) && c.property in properties
    ensures ',' !in Render(c) && ',' !in " " + Render(c)
  {
    DeclaredNameIsPlain(properties, c.property);
    var w := DirectionWord(c.direction);
    assert ',' !in w;
    assert Render(c) == c.property + " " + w;
  }

  /** Splitting a non-empty expression on commas gives back its clauses, all
      but the first behind a space. */
  lemma TokensOfFormat(properties: seq<string>, cs: seq<SortClause>)
    requires WellFormedSchema(properties)
    requires forall k :: 0 <= k < |cs| ==> cs[k].property in properties
    requires cs != []
    ensures Tokens(Format(cs)) == SplitTokens(Rendered(cs))
  {
    var ts := SplitTokens(Rendered(cs));
    FormatUnpadded(properties, cs);
    JoinCommaSpace(Rendered(cs));
    SplitTokensCommaFree(properties, cs);
    SplitJoin(ts, ',');
  }

  /** A rendered clause never ends with `" desc"`: it ends with `'g'`. */
  lemma RenderNotDesc(c: SortClause)
    ensures !EndsWith(Render(c), DescSuffix)
  {
  }

  /** A rendered clause of a declared name parses back to that name,
      ascending whatever its direction. */
  lemma ParseRendered(properties: seq<string>, c: SortClause)
    requires WellFormedSchema(properties) && c.property in properties
    ensures ParseToken(properties, Render(c)) == Some(SortClause(c.property, Ascending))
  {
    var r := Render(c);
    RenderNotDesc(c);
    var i :| 0 <= i < |properties| && properties[i] == c.property;
    DeclaredNameIsPlain(properties, c.property);
    assert c.property[0] !in WhiteSpace;
    LookupCanonical(properties, i, c.property);
    ParseWordPair(properties, c.property, DirectionWord(c.direction), c.property);
  }

  /** Re-parsing a clause list's expression keeps only its first clause, and
      makes it ascending: later clauses follow `", "` and start with a space,
      and `"descending"` does not end with `" desc"`. */
  lemma ReparseFormat(properties: seq<string>, cs: seq<SortClause>)
    requires WellFormedSchema(properties)
    requires forall k :: 0 <= k < |cs| ==> cs[k].property in properties
    ensures OrderClauses(properties, Format(cs)) ==
            if cs == [] then [] else [SortClause(cs[0].property, Ascending)]
  {
    if cs == [] {
      assert Tokens(Format(cs)) == [[]];
    } else {
      var ts := SplitTokens(Rendered(cs));
      TokensOfFormat(properties, cs);
      ParseRendered(properties, cs[0]);
      forall k | 0 <= k < |ts[1..]|
        ensures ParseToken(properties, ts[1..][k]).None?
      {
        LeadingSpaceDropped(properties, ts[1..][k]);
      }
      ClausesEmptyIff(properties, ts[1..]);
      ClausesAppend(properties, [ts[0]], ts[1..]);
      assert [ts[0]] + ts[1..] == ts;
    }
  }

  /** The builder's output does not re-parse to itself: parsing it again keeps
      only its first clause, turned ascending. */
  lemma ReparseOutput(properties: seq<string>, orderBy: string)
    requires WellFormedSchema(properties)
    ensures var cs := OrderClauses(properties, orderBy);
            OrderClauses(properties, OrderExpression(properties, orderBy)) ==
            if cs == [] then [] else [SortClause(cs[0].property, Ascending)]
  {
    ReparseFormat(properties, OrderClauses(properties, orderBy));
  }

  /** Re-parsing stabilises after one round: the second re-parse reproduces
      the first. */
  lemma ReparseStable(properties: seq<string>, orderBy: string)
    requires WellFormedSchema(properties)
    ensures var once := OrderExpression(properties, orderBy);
            var twice := OrderExpression(properties, once);
            OrderExpression(properties, twice) == twice
  {
    var once := OrderExpression(properties, orderBy);
    ReparseOutput(properties, orderBy);
    ReparseOutput(properties, once);
  }
}

/** Worked examples over an entity with the properties `Name` and `Age`.
    The example strings are passed as parameters bound by `requires`, which
    keeps the verifier from evaluating the parser on literals eagerly. */
module OrderQueryExamples {
  import opened Text
  import opened OrderQuery

  const NameAge: seq<string> := ["Name", "Age"]

  lemma NameAgeWellFormed()
    ensures WellFormedSchema(NameAge)
  {
    assert Fold("Name") != Fold("Age");
  }

  lemma NameAgeNonEmpty()
    ensures forall i :: 0 <= i < |NameAge| ==> NameAge[i] != []
  {
    assert NameAge[0] == "Name" && NameAge[1] == "Age";
  }

  lemma ResolveName(spelling: string)
    requires spelling == "name" || spelling == "NAME" || spelling == "Name"
    ensures Lookup(NameAge, spelling) == Some("Name")
  {
    assert Fold(spelling) == Fold("Name") == "name";
  }

  lemma ResolveAge(spelling: string)
    requires spelling == "age" || spelling == "AGE" || spelling == "Age"
    ensures Lookup(NameAge, spelling) == Some("Age")
  {
    assert Fold(spelling) == Fold("Age") == "age";
    assert Fold("Name") != Fold(spelling);
  }

  /** The suffix test is case-sensitive: `"name DESC"` sorts ascending. */
  lemma UpperCaseDescIsAscending(token: string, word: string, rest: string)
    requires token == "name DESC" && word == "name" && rest == "DESC"
    ensures ParseToken(NameAge, token) == Some(SortClause("Name", Ascending))
  {
    ResolveName(word);
    ParseWordPair(NameAge, word, rest, "Name");
    assert token == word + " " + rest;
    assert token[|token| - 1] == 'C';
  }

  /** A trailing space after `desc` also sorts ascending. */
  lemma TrailingSpaceAfterDescIsAscending(token: string, word: string, rest: string)
    requires token == "age desc " && word == "age" && rest == "desc "
    ensures ParseToken(NameAge, token) == Some(SortClause("Age", Ascending))
  {
    ResolveAge(word);
    ParseWordPair(NameAge, word, rest, "Age");
    assert token == word + " " + rest;
    assert token[|token| - 1] == ' ';
  }

  lemma AgeDescIsDescending(token: string, word: string, rest: string)
    requires token == "age desc" && word == "age" && rest == "desc"
    ensures ParseToken(NameAge, token) == Some(SortClause("Age", Descending))
  {
    ResolveAge(word);
    ParseWordPair(NameAge, word, rest, "Age");
    assert token == word + " " + rest;
    assert token[3..] == DescSuffix;
  }

  lemma NameIsAscending(token: string)
    requires token == "name"
    ensures ParseToken(NameAge, token) == Some(SortClause("Name", Ascending))
  {
    ResolveName(token);
    ParseBareWord(NameAge, token, "Name");
  }

  /** A two-token specification with no padding, split on its comma. */
  lemma TwoTokens(spec: string, t0: string, t1: string)
    requires |t0| > 0 && t0[0] !in WhiteSpace && |t1| > 0 && t1[|t1| - 1] !in WhiteSpace
    requires ',' !in t0 && ',' !in t1
    requires spec == t0 + [','] + t1
    ensures Tokens(spec) == [t0, t1]
  {
    var ts := [t0, t1];
    assert ts[1..] == [t1];
    TrimUnpadded(spec);
    SplitJoin(ts, ',');
  }

  lemma FormatOne(c: SortClause)
    ensures Format([c]) == Render(c)
  {
    assert Rendered([c]) == [Render(c)];
  }

  lemma FormatTwo(c0: SortClause, c1: SortClause)
    ensures Format([c0, c1]) == Render(c0) + ClauseSeparator + Render(c1)
  {
    var rs := Rendered([c0, c1]);
    assert rs == [Render(c0), Render(c1)];
    assert rs[1..] == [Render(c1)];
    assert Join(rs[1..], ClauseSeparator) == Render(c1);
  }

  lemma RenderNameAsc(c0: SortClause)
    requires c0 == SortClause("Name", Ascending)
    ensures Render(c0) == "Name ascending"
  {
  }

  lemma RenderNameAscAgeDesc(c0: SortClause, c1: SortClause)
    requires c0 == SortClause("Name", Ascending) && c1 == SortClause("Age", Descending)
    ensures Render(c0) + ClauseSeparator + Render(c1) == "Name ascending, Age descending"
  {
    RenderNameAsc(c0);
    RenderAgeDesc(c1);
  }

  lemma RenderAgeDesc(c0: SortClause)
    requires c0 == SortClause("Age", Descending)
    ensures Render(c0) == "Age descending"
  {
  }

  lemma CommaSeparatedTokens(spec: string, name: string, ageDesc: string)
    requires spec == "name,age desc" && name == "name" && ageDesc == "age desc"
    ensures Tokens(spec) == [name, ageDesc]
  {
    assert spec == name + [','] + ageDesc;
    TwoTokens(spec, name, ageDesc);
  }

  /** The clauses of `"name,age desc"`: both tokens resolve. */
  lemma CommaSeparatedClauses(spec: string, name: string, ageDesc: string)
    requires spec == "name,age desc" && name == "name" && ageDesc == "age desc"
    ensures OrderClauses(NameAge, spec) == [SortClause("Name", Ascending), SortClause("Age", Descending)]
  {
    var c0, c1 := SortClause("Name", Ascending), SortClause("Age", Descending);
    CommaSeparatedTokens(spec, name, ageDesc);
    NameIsAscending(name);
    var age, desc := "age", "desc";
    AgeDescIsDescending(ageDesc, age, desc);
    ClausesOfTwo(NameAge, name, ageDesc);
    ClausesOfOne(NameAge, name);
    ClausesOfOne(NameAge, ageDesc);
    assert [c0] + [c1] == [c0, c1];
  }

  /** Without spaces after the commas every clause survives, in order, with
      its declared casing. */
  lemma CommaSeparatedSpec(spec: string, name: string, ageDesc: string)
    requires spec == "name,age desc" && name == "name" && ageDesc == "age desc"
    ensures OrderExpression(NameAge, spec) == "Name ascending, Age descending"
  {
    var c0, c1 := SortClause("Name", Ascending), SortClause("Age", Descending);
    CommaSeparatedClauses(spec, name, ageDesc);
    FormatTwo(c0, c1);
    RenderNameAscAgeDesc(c0, c1);
  }

  /** The `Name`, `Age` schema meets `WellFormedSchema`, so `ReparseOutput`
      applies: feeding `"Name ascending, Age descending"` back to the builder
      yields `"Name ascending"`. */
  lemma CommaSeparatedReparse(spec: string, name: string, ageDesc: string)
    requires spec == "name,age desc" && name == "name" && ageDesc == "age desc"
    ensures OrderExpression(NameAge, OrderExpression(NameAge, spec)) == "Name ascending"
  {
    var c0 := SortClause("Name", Ascending);
    NameAgeWellFormed();
    CommaSeparatedClauses(spec, name, ageDesc);
    ReparseOutput(NameAge, spec);
    FormatOne(c0);
    RenderNameAsc(c0);
  }

  lemma CommaSpaceTokens(spec: string, ageDesc: string, spaceName: string)
    requires spec == "age desc, name" && ageDesc == "age desc" && spaceName == " name"
    ensures Tokens(spec) == [ageDesc, spaceName]
  {
    assert spec == ageDesc + [','] + spaceName;
    TwoTokens(spec, ageDesc, spaceName);
  }

  /** The part after `", "` starts with a space and names no property. */
  lemma SpaceNameDropped(spaceName: string)
    requires spaceName == " name"
    ensures ParseToken(NameAge, spaceName) == None
  {
    NameAgeNonEmpty();
    LeadingSpaceDropped(NameAge, spaceName);
  }

  /** The clauses of `"age desc, name"`: the token after `", "` is dropped. */
  lemma CommaSpaceClauses(spec: string, ageDesc: string, spaceName: string)
    requires spec == "age desc, name" && ageDesc == "age desc" && spaceName == " name"
    ensures OrderClauses(NameAge, spec) == [SortClause("Age", Descending)]
  {
    var c0 := SortClause("Age", Descending);
    CommaSpaceTokens(spec, ageDesc, spaceName);
    var age, desc := "age", "desc";
    AgeDescIsDescending(ageDesc, age, desc);
    SpaceNameDropped(spaceName);
    ClausesOfTwo(NameAge, ageDesc, spaceName);
    ClausesOfOne(NameAge, ageDesc);
    ClausesOfOne(NameAge, spaceName);
    assert [c0] + [] == [c0];
  }

  /** With a space after the comma the second clause is lost. */
  lemma CommaSpaceSpecDropsLaterClauses(spec: string, ageDesc: string, spaceName: string)
    requires spec == "age desc, name" && ageDesc == "age desc" && spaceName == " name"
    ensures OrderExpression(NameAge, spec) == "Age descending"
  {
    var c0 := SortClause("Age", Descending);
    CommaSpaceClauses(spec, ageDesc, spaceName);
    FormatOne(c0);
    RenderAgeDesc(c0);
  }
}
