# CompanyEmployees query options: sort-spec normaliser and page-size clamp

This project models the two pure pieces of CompanyEmployees' query-options pipeline:

* `OrderQueryBuilder.CreateOrderQuery` turns a free-text `orderBy` string such as
  `"name,age desc"` into the ordering expression the query layer consumes, here
  `"Name ascending, Age descending"`. It works in these steps:
  1. Trim the whole string and split it on commas.
  2. Skip blank tokens.
  3. Take the part of each token before the first space as the candidate property name.
  4. Look the candidate up without regard to case among the entity's public properties.
     Unknown names are skipped.
  5. Make the clause descending exactly when the token ends with the case-sensitive literal
     `" desc"`.
  6. Append `"<Name> <direction>, "` for each clause.
  7. Trim trailing commas and spaces.
* `RequestParameters` is the option bag every listing request carries. It has these parts:
  * `PageNumber` defaults to 1.
  * `PageSize` defaults to 10. Its setter caps the value at `maxPageSize = 50` and passes
    every other value through, including zero and negative values.
  * `OrderBy` is a plain property.

Files:

* `text.dfy` (module `Text`) holds the .NET string operations the builder uses, stated over
  `seq<char>`: `Trim`, `TrimEnd`, `Split`, `Split(" ")[0]`, `EndsWith`, `IsNullOrWhiteSpace`
  and case-insensitive equality. They come with the facts about them that the proofs need,
  such as split/join round trips and the uniqueness of `TrimEnd`'s result.
* `order_query.dfy` holds two modules:
  * `OrderQuery` contains the builder. It has two definitions:
    * a functional reference definition, `OrderExpression`;
    * a step-by-step method, `CreateOrderQuery`, that follows the source's loop and string
      builder and is proved equal to the reference.

    The module also states the properties of the parse.
  * `OrderQueryExamples` contains worked examples over an entity with the properties `Name`
    and `Age`.
* `request_parameters.dfy` (module `RequestFeatures`) holds the option bag. It is modelled
  as an immutable record, and each property assignment is a function from the old state to
  the new one.

How the model relates to the code:

* The source always reflects over `Employee`, whatever its type argument `T`. `Employee` is
  not part of this model. The entity's public property names are therefore the parameter
  `properties`, in whatever order reflection returns them. `GetProperties` promises no
  particular order.
* The lookup is `FirstOrDefault` over that list: the first name equal up to case wins
  (`LookupFirst`). The operation itself needs nothing of the list.
* `LeadingSpaceDropped` needs only that no property name is empty, which holds for every C#
  property. `LookupCanonical` and the re-parsing lemmas assume `WellFormedSchema` of
  `Employee`: every name is an ASCII identifier, and no two names differ only in case. C#
  itself would allow non-ASCII names, and names such as `Name` and `NAME` side by side.

Behaviour of the code that a reader might not expect:

* Only the whole string is trimmed, not each token. So a token after `", "` starts with a
  space, its first word is empty, and it is dropped. `"age desc, name"` yields
  `"Age descending"`, not `"Age descending, Name ascending"`.
* The `desc` suffix test is a case-sensitive `EndsWith(" desc")`, applied to each token
  after only the whole string was trimmed. `"name DESC"` sorts ascending. So does the token
  `"age desc "` when it is not the last one, as in `"age desc ,name"`. As the whole input,
  `"age desc "` is trimmed first and sorts descending.
* The builder is not idempotent. Re-parsing its output keeps only the first clause, turned
  ascending, for two reasons:
  * every later clause follows `", "`;
  * `"descending"` does not end with `" desc"`.

  Re-parsing does stabilise after one more round (`ReparseStable`).
* The page-size setter enforces only the upper bound of 50. A page size of zero or a
  negative page size is stored as given.

## Model

| member | source | states |
|---|---|---|
| `Text.IsBlank` | Repository/Extenstions/Utility/OrderQueryBuilder.cs:18 | The empty string is blank. A blank non-empty string starts and ends with whitespace. |
| `Text.Trim` | Repository/Extenstions/Utility/OrderQueryBuilder.cs:11 | `Trim()` never lengthens the string, and its result neither starts nor ends with whitespace. |
| `Text.TrimEnd` | Repository/Extenstions/Utility/OrderQueryBuilder.cs:32 | `TrimEnd(',', ' ')` yields a prefix of the input. The prefix does not end in a trimmed character, and everything cut off is a trimmed character. |
| `Text.TrimEmptyIffBlank` | Repository/Extenstions/Utility/OrderQueryBuilder.cs:11 | The trimmed specification is empty exactly when the input is all whitespace. |
| `Text.Split` | Repository/Extenstions/Utility/OrderQueryBuilder.cs:11 | `Split(',')` yields at least one piece, and no piece contains the separator. |
| `Text.JoinSplit` | Repository/Extenstions/Utility/OrderQueryBuilder.cs:11 | Joining the pieces of a split with the separator gives back the input, so splitting loses no text. |
| `Text.SplitJoin` | Repository/Extenstions/Utility/OrderQueryBuilder.cs:11 | Splitting a join of separator-free pieces gives back exactly those pieces. |
| `Text.EndsWith` | Repository/Extenstions/Utility/OrderQueryBuilder.cs:28 | A string ending with a suffix is at least as long as the suffix. When the suffix is non-empty, the string ends with the suffix's last character and contains the suffix's first character. |
| `Text.EqualsIgnoreCase` | Repository/Extenstions/Utility/OrderQueryBuilder.cs:22-23 | Two names are equal ignoring case exactly when they have the same length and agree character by character after lower-casing. |
| `Text.FirstWord` | Repository/Extenstions/Utility/OrderQueryBuilder.cs:21 | `Split(" ")[0]` is the prefix of the token up to its first space, and it contains no space. |
| `Text.FirstWordOfLeadingSpace` | Repository/Extenstions/Utility/OrderQueryBuilder.cs:21 | A token that begins with a space has an empty candidate name. |
| `OrderQuery.Lookup` | Repository/Extenstions/Utility/OrderQueryBuilder.cs:22-26 | The lookup finds nothing exactly when no declared name equals the candidate up to case. When it finds a name, that name is declared and equals the candidate up to case. |
| `OrderQuery.LookupFirst` | Repository/Extenstions/Utility/OrderQueryBuilder.cs:22-23 | `FirstOrDefault` returns the first name equal to the candidate up to case, whatever later names also match. |
| `OrderQuery.LookupCanonical` | Repository/Extenstions/Utility/OrderQueryBuilder.cs:22-30 | Any spelling of a declared name resolves to the declared name in its own casing, not the caller's. |
| `OrderQuery.ParseToken` | Repository/Extenstions/Utility/OrderQueryBuilder.cs:18-28 | A token yields a clause exactly when it is not blank and its first word matches a declared name up to case. The clause names a declared property. It is descending exactly when the token ends with `" desc"`. |
| `OrderQuery.Clauses` | Repository/Extenstions/Utility/OrderQueryBuilder.cs:16-31 | A token list yields at most one clause per token, and every clause names a declared property. |
| `OrderQuery.Tokens` | Repository/Extenstions/Utility/OrderQueryBuilder.cs:11 | The trimmed specification split on commas has at least one token, and no token contains a comma. |
| `OrderQuery.TokensBlankIff` | Repository/Extenstions/Utility/OrderQueryBuilder.cs:11-19 | The tokens are a single empty token exactly when the specification is blank. |
| `OrderQuery.Render` | Repository/Extenstions/Utility/OrderQueryBuilder.cs:28-30 | The text of a clause is non-empty and ends with `'g'`, the last letter of both direction words. |
| `OrderQuery.RenderNotDesc` | Repository/Extenstions/Utility/OrderQueryBuilder.cs:28-30 | The text the builder writes for a clause never ends with `" desc"`. |
| `OrderQuery.OrderExpression` | Repository/Extenstions/Utility/OrderQueryBuilder.cs:16-32 | The expression is empty exactly when no clause resolved. Otherwise it does not end with `','` or `' '`. |
| `OrderQuery.AppendClause` | Repository/Extenstions/Utility/OrderQueryBuilder.cs:18-30 | One iteration of the loop appends `"<Name> <direction>, "` for a resolved token and nothing for a blank or unknown one. |
| `OrderQuery.CreateOrderQuery` | Repository/Extenstions/Utility/OrderQueryBuilder.cs:9-35 | The source's loop over the tokens produces the reference expression: the surviving clauses in input order, joined by `", "`. Its result never ends with `','` or `' '`. |
| `OrderQuery.ClausesAppend` | Repository/Extenstions/Utility/OrderQueryBuilder.cs:16-31 | Tokens contribute their clauses independently and in input order: the clauses of `a + b` are those of `a` followed by those of `b`. |
| `OrderQuery.UnknownTokenSkipped` | Repository/Extenstions/Utility/OrderQueryBuilder.cs:21-26 | A token whose first word names no property is skipped, not an error. Removing it anywhere in the token list leaves the clauses unchanged. |
| `OrderQuery.ClausesEmptyIff` | Repository/Extenstions/Utility/OrderQueryBuilder.cs:18-26 | No clause is produced exactly when every token is blank or unknown. |
| `OrderQuery.TrimBuilder` | Repository/Extenstions/Utility/OrderQueryBuilder.cs:32 | The final `TrimEnd(',', ' ')` turns the builder's content into the expression `OrderExpression` defines. |
| `OrderQuery.TrimAppended` | Repository/Extenstions/Utility/OrderQueryBuilder.cs:30-32 | Trimming `','` and `' '` from the built text removes exactly the final `", "` separator and nothing of the last clause. |
| `OrderQuery.FormatShape` | Repository/Extenstions/Utility/OrderQueryBuilder.cs:30-32 | The joined expression is empty exactly when no clause survived. Otherwise it ends with neither `','` nor `' '`. |
| `OrderQuery.ExpressionEmptyIff` | Repository/Extenstions/Utility/OrderQueryBuilder.cs:16-32 | The output is empty exactly when every comma-separated token is blank or unknown. |
| `OrderQuery.BlankInputYieldsEmpty` | Repository/Extenstions/Utility/OrderQueryBuilder.cs:11-19 | An empty or all-whitespace specification yields the empty expression. |
| `OrderQuery.LeadingSpaceDropped` | Repository/Extenstions/Utility/OrderQueryBuilder.cs:21-26 | A token that starts with a space, such as the part after `", "`, has an empty candidate and is always dropped. |
| `OrderQuery.ParseWordPair` | Repository/Extenstions/Utility/OrderQueryBuilder.cs:21-28 | A token made of a resolvable word, a space and any text becomes a clause of the resolved name. The rest of the token matters only through the `" desc"` suffix test. |
| `OrderQuery.ParseBareWord` | Repository/Extenstions/Utility/OrderQueryBuilder.cs:21-28 | A single resolvable word with no space becomes an ascending clause. |
| `OrderQuery.ParseRendered` | Repository/Extenstions/Utility/OrderQueryBuilder.cs:21-30 | A clause the builder emitted parses back to the same name, always ascending, because `"descending"` does not end with `" desc"`. |
| `OrderQuery.ReparseOutput` | Repository/Extenstions/Utility/OrderQueryBuilder.cs:11-32 | The builder's output does not re-parse to itself. Re-parsing keeps only the first clause, turned ascending. |
| `OrderQuery.ReparseStable` | Repository/Extenstions/Utility/OrderQueryBuilder.cs:11-32 | Applying the builder to its own output a second time changes nothing more. |
| `OrderQueryExamples.UpperCaseDescIsAscending` | Repository/Extenstions/Utility/OrderQueryBuilder.cs:28 | `"name DESC"` sorts ascending: the suffix test is case-sensitive. |
| `OrderQueryExamples.TrailingSpaceAfterDescIsAscending` | Repository/Extenstions/Utility/OrderQueryBuilder.cs:28 | `"age desc "` is a non-final token with a trailing space, and it sorts ascending. |
| `OrderQueryExamples.CommaSeparatedSpec` | Repository/Extenstions/Utility/OrderQueryBuilder.cs:9-35 | Over `Name`, `Age`, the input `"name,age desc"` yields `"Name ascending, Age descending"`. |
| `OrderQueryExamples.CommaSeparatedReparse` | Repository/Extenstions/Utility/OrderQueryBuilder.cs:9-35 | The `Name`, `Age` schema meets the schema assumption, and feeding the builder's output for `"name,age desc"` back to it yields `"Name ascending"`. |
| `OrderQueryExamples.CommaSpaceSpecDropsLaterClauses` | Repository/Extenstions/Utility/OrderQueryBuilder.cs:11-32 | Over `Name`, `Age`, the input `"age desc, name"` yields only `"Age descending"`. |
| `RequestFeatures.Fresh` | Entities/RequestFeatures/RequestParameters.cs:6-8 | A new object has page number 1, page size 10 and no sort specification. Its page size is within the bound. |
| `RequestFeatures.ClampPageSize` | Entities/RequestFeatures/RequestParameters.cs:17 | The stored size never exceeds 50. A value above 50 becomes 50. Any value up to 50, including 0 and negative values, is stored unchanged. |
| `RequestFeatures.ClampIsMinimum` | Entities/RequestFeatures/RequestParameters.cs:17 | The stored size is `min(value, 50)`: it is at most the value, and it is at least every number bounded by both. |
| `RequestFeatures.SetPageSize` | Entities/RequestFeatures/RequestParameters.cs:9-19 | Assigning `PageSize` stores the clamped value, keeps the bound, and leaves `PageNumber` and `OrderBy` unchanged. |
| `RequestFeatures.SetPageNumber` | Entities/RequestFeatures/RequestParameters.cs:6 | Assigning `PageNumber` stores the value as given and leaves the other properties unchanged. |
| `RequestFeatures.SetOrderBy` | Entities/RequestFeatures/RequestParameters.cs:21 | Assigning `OrderBy` stores the value as given and leaves the other properties unchanged. |
| `RequestFeatures.SetPageSizeIdempotent` | Entities/RequestFeatures/RequestParameters.cs:17 | Re-assigning the current page size leaves the object unchanged. |
| `RequestFeatures.NoLowerBound` | Entities/RequestFeatures/RequestParameters.cs:17 | Zero and negative page sizes are stored as given. There is no lower bound. |
| `RequestFeatures.AssignmentsKeepBound` | Entities/RequestFeatures/RequestParameters.cs:5-21 | From a fresh or bounded object, every sequence of property assignments keeps `PageSize <= 50`. |
| `RequestFeatures.PageSizeAssignmentsOnlyTouchSize` | Entities/RequestFeatures/RequestParameters.cs:6-21 | A run of page-size assignments leaves `PageNumber` and `OrderBy` alone, and the last assignment decides the size. |

## Left out

- Culture-sensitive string behaviour is approximated. .NET's `Trim`, `IsNullOrWhiteSpace` and `InvariantCultureIgnoreCase` are modelled with ASCII whitespace and ASCII case folding. Unicode whitespace and case mapping are not modelled.
- Text.EndsWith: the one-string overload of .NET's `EndsWith` compares with the current culture, and the model compares ordinally. The two can differ, for example on characters the culture ignores, such as ASCII control characters, or on `"\r\n"`, which the culture treats as one unit. Those differences are not modelled.
- OrderQuery.ReparseOutput, OrderQuery.ReparseStable, OrderQuery.ParseRendered and OrderQuery.LookupCanonical assume `WellFormedSchema` of `Employee`, whose definition is not part of this model. They promise nothing for an entity with non-ASCII property names or with two names that differ only in case.
- A null `orderByQueryString` is not modelled, because the input is a `string`. The source would throw on a null input.
- Reflection over `Employee` is not modelled. `Employee` is not part of this model, so its public property names are a parameter.
- `RequestParameters` is modelled as a record, not a mutable C# object. Each setter is a function from the old state to the new one.
- C# `int` is a bounded newtype (`int32`). No arithmetic is done on these values, so there is no wrap-around to model.
- The range filter `EmployeeParameters` and its validity check are not part of this model, and neither is the data-shaping implementation behind `Contracts/IDataShaper.cs`.
- Paging arithmetic in `PagedList` is not part of this model.
- Controllers, action filters, authentication and token signing, dependency-injection configuration, EF Core repositories and migrations are left out. They are HTTP, persistence, identity or framework plumbing with no logic of this core.
