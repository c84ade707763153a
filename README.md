# SQLBuilder, modelled in Dafny

The Grammy hall-of-fame API assembles its SQL text with a small fluent
builder, `SQLBuilder` (SqlBuilder.js). A builder keeps a private, ordered
list of SQL fragments (`#sql`). Each clause method formats one fragment from
its arguments, pushes it onto the end of the list and returns the builder,
so calls can be chained. `build()` joins the fragments with single spaces.
The builder checks neither SQL validity nor clause order, and it escapes
nothing: every name is interpolated verbatim.

The model has five modules:

- `Text` (text.dfy): `Join`, JavaScript's `Array.prototype.join` on strings,
  and `Count`, the number of occurrences of a character. Lemmas describe the
  joined text element by element (`JoinAt`, `JoinSepAt`, `JoinLength`, with
  `PartStart` the position where a part begins), how it grows when a part is
  appended (`JoinSnoc`), and how many of a character it holds (`CountJoin`).
- `Decimal` (decimal.dfy): the text a template literal gives a safe integer
  (magnitude at most 2^53 - 1), which `limit` and `offset` interpolate. It
  comes with a parser and the round trip between the two.
- `Clauses` (clauses.dfy): the datatype `Clause` has one constructor per
  clause method, holding that method's arguments. `Clause.Fragment()` is the
  text the method pushes, `Placeholders()` is the number of values the
  fragment expects to be bound, and `Query(calls)` is what `build()` returns
  after those calls. The lemmas state the fragment shapes, the placeholder
  counts and the ordering.
- `Builder` (sql_builder.dfy): the class `SqlBuilder`. The field `sql` is the
  fragment list. A ghost field `calls` records the calls that produced it,
  and `Valid()` ties the two together. Every clause method has
  `modifies this`, appends exactly one fragment at the end, leaves earlier
  fragments unchanged and returns `this`. `Build` has no `modifies` clause,
  so it cannot change the list. Calling it twice therefore gives the same
  text.
- `HallOfFame` (hall_of_fame.dfy): the builder chain of the listing handler
  in controllers/hall_of_fame.js, run on its fixed arguments. The expected
  text is stated fragment by fragment, each fragment as the concatenation of
  the literal pieces it is made of. This spelling is the exact listing
  query. It is written in pieces because the verifier cannot compare one
  literal of several hundred characters cheaply.

The placeholder results hold on one condition: no name passed to the
builder contains a `?` of its own. The builder does not check this, so the
condition is stated as a precondition of the lemmas (`Text.Lacks`,
`Clauses.QuestionFree`), never of the builder's methods.

## Model

| member | source | states |
|---|---|---|
| Builder.SqlBuilder.constructor | SqlBuilder.js:1-2 | A new builder holds an empty fragment list. |
| Builder.SqlBuilder.Push | SqlBuilder.js:6 | The push every clause method performs appends exactly one fragment and changes nothing else. |
| Builder.SqlBuilder.Select | SqlBuilder.js:4-8 | Appends exactly the SELECT fragment for the given fields, keeps every earlier fragment and returns the same builder. |
| Builder.SqlBuilder.From | SqlBuilder.js:10-13 | Appends exactly `FROM table`, keeps the prefix and returns the same builder. |
| Builder.SqlBuilder.Where | SqlBuilder.js:15-18 | Appends exactly `WHERE column operator ?`. The operator defaults to `=`. Returns the same builder. |
| Builder.SqlBuilder.Insert | SqlBuilder.js:20-23 | Appends exactly the INSERT fragment for the table and columns, keeps the prefix and returns the same builder. |
| Builder.SqlBuilder.Update | SqlBuilder.js:25-28 | Appends exactly the UPDATE fragment for the table and columns, keeps the prefix and returns the same builder. |
| Builder.SqlBuilder.Offset | SqlBuilder.js:30-33 | Appends exactly `OFFSET n`, keeps the prefix and returns the same builder. |
| Builder.SqlBuilder.Limit | SqlBuilder.js:35-38 | Appends exactly `LIMIT n`, keeps the prefix and returns the same builder. |
| Builder.SqlBuilder.Delete | SqlBuilder.js:40-43 | Appends exactly `DELETE FROM table`, keeps the prefix and returns the same builder. |
| Builder.SqlBuilder.Join | SqlBuilder.js:45-48 | Appends exactly `JOIN table ON on`, keeps the prefix and returns the same builder. |
| Builder.SqlBuilder.LeftJoin | SqlBuilder.js:50-53 | Appends exactly `LEFT JOIN table ON on`, keeps the prefix and returns the same builder. |
| Builder.SqlBuilder.OrderBy | SqlBuilder.js:55-58 | Appends exactly `ORDER BY column order`. The order defaults to `ASC`. Returns the same builder. |
| Builder.SqlBuilder.GroupBy | SqlBuilder.js:60-63 | Appends exactly `GROUP BY column`, keeps the prefix and returns the same builder. |
| Builder.SqlBuilder.Build | SqlBuilder.js:65-67 | Returns the fragments joined by single spaces, and `""` for an empty builder. It leaves the list unchanged. The result holds exactly as many `?` as the calls expect values. |
| Clauses.Clause.Fragment | SqlBuilder.js:4-63 | The text each clause method pushes (the twelve template literals). Every fragment opens with its clause's keyword (`SELECT `, `FROM `, `WHERE `, `INSERT INTO `, …), whatever the arguments. |
| Clauses.Marks | SqlBuilder.js:21 | `columns.map(() => "?")`: one entry per column, each entry the string `"?"`. |
| Clauses.Assignments | SqlBuilder.js:26 | ``columns.map((c) => `${c} = ?`)``: one entry per column, entry i being `column_i = ?`. |
| Clauses.Query | SqlBuilder.js:65-67 | The text `build()` returns after the given calls; it is empty exactly when no clause method was called. |
| Clauses.NamesOnly | SqlBuilder.js:4-63 | SELECT, FROM, DELETE, JOIN, LEFT JOIN, ORDER BY and GROUP BY fragments hold no `?` when the names they interpolate hold none. |
| Clauses.SelectAll | SqlBuilder.js:5-6 | `select()` with no fields emits `SELECT *`. |
| Clauses.SelectFieldAt | SqlBuilder.js:4-8 | Field i appears right after `SELECT ` and the earlier fields, each earlier field followed by `, `. The last field ends the fragment, so argument order is kept. |
| Clauses.WherePlaceholder | SqlBuilder.js:15-18 | The WHERE fragment holds exactly one `?`, and it is the last character. |
| Clauses.MarksCount | SqlBuilder.js:21 | The VALUES list's marks hold exactly n `?` characters in all, the number the INSERT count adds up. |
| Clauses.InsertPlaceholders | SqlBuilder.js:20-23 | The INSERT fragment holds exactly one `?` per column. |
| Clauses.AssignmentsCount | SqlBuilder.js:26 | The assignments hold the columns' own `?` plus exactly one placeholder each. |
| Clauses.UpdatePlaceholders | SqlBuilder.js:25-28 | The UPDATE fragment holds exactly one `?` per column. |
| Clauses.PagingVerbatim | SqlBuilder.js:30-38 | `LIMIT ` and `OFFSET ` are followed by a canonical numeral that parses back to n, for every safe integer n. These fragments hold no placeholder. |
| Clauses.OrderByVerbatim | SqlBuilder.js:55-58 | The ORDER BY fragment is `ORDER BY column`, a space and then exactly the given order. There is no case folding or validation. |
| Clauses.FragmentPlaceholders | SqlBuilder.js:4-63 | Every fragment holds exactly as many `?` as values it expects: 1 for WHERE, one per column for INSERT and UPDATE, 0 for the rest. |
| Clauses.FragmentsAt | SqlBuilder.js:2-7 | The list holds one fragment per call, and entry i is the fragment of call i. |
| Clauses.FragmentsSnoc | SqlBuilder.js:6 | One more call appends exactly its own fragment to the list. |
| Clauses.QuerySnoc | SqlBuilder.js:65-67 | After one more call the built text is the old text, a space and the new fragment. After the first call it is that fragment alone. |
| Clauses.QueryFragmentAt | SqlBuilder.js:65-67 | The fragment of call i appears in the built text at its offset, after all earlier fragments. |
| Clauses.SumCountFragments | SqlBuilder.js:4-63 | The fragments' `?` counts sum to the number of values the calls expect. |
| Clauses.QueryPlaceholders | SqlBuilder.js:65-67 | The built query holds exactly as many `?` as values the calls expect to be bound. |
| Text.Join | SqlBuilder.js:5 | `parts.join(sep)`; the joined text opens with the first part. |
| Text.JoinLength | SqlBuilder.js:66 | The joined text is as long as the parts plus one separator between each pair of neighbours. |
| Text.JoinAt | SqlBuilder.js:66 | Part i sits at its offset in the joined text, and the last part ends it. |
| Text.JoinSepAt | SqlBuilder.js:66 | Exactly one separator lies between part i and part i+1. |
| Text.JoinSnoc | SqlBuilder.js:66 | Appending a part extends the joined text by the separator and that part. |
| Text.CountJoin | SqlBuilder.js:21 | Occurrences in the joined text are those of the parts plus those of the n-1 separators. |
| Text.CountConcat | SqlBuilder.js:21 | Counting distributes over concatenation. |
| Text.JoinLacks | SqlBuilder.js:5 | Joining parts and a separator that lack a character gives a text without it. |
| Decimal.Render | SqlBuilder.js:31 | The text `${n}` gives a safe integer is a canonical numeral (optional minus, no leading zero, no `-0`) and holds no `?`. |
| Decimal.DigitsRoundTrip | SqlBuilder.js:31 | The digits of n have no leading zero and denote n. |
| Decimal.RenderRoundTrip | SqlBuilder.js:36 | The text of a safe integer is a canonical numeral that parses back to it and holds no `?`. |
| HallOfFame.ListingShape | controllers/hall_of_fame.js:6-21 | For any names, the listing chain builds: the six fields after SELECT, then FROM, then the five JOIN … ON … fragments, in order and space-separated. |
| HallOfFame.ListingChain | controllers/hall_of_fame.js:6-21 | Running the chain on a builder returns the query of its seven calls. |
| HallOfFame.ListingNeedsNoValues | controllers/hall_of_fame.js:6-22 | The listing query has no placeholder, so it is executed without bound values. |
| HallOfFame.HofListingText | controllers/hall_of_fame.js:6-21 | The listing chain's query on the handler's own names, written fragment by fragment as the literal pieces each fragment is made of. |
| HallOfFame.HallOfFameQuery | controllers/hall_of_fame.js:6-21 | The handler's chain builds exactly `SELECT hof.title, a.artist as artist, … FROM hall_of_fame as hof JOIN artist as a ON hof.artist_id = a.id …` and holds no `?`. |

## What the builder does not do

- `where` takes `(column, operator = "=")` and always emits
  `WHERE column operator ?` (SqlBuilder.js:15-18). It takes no free
  predicate and binds no values itself.
- There is no filter compiler, no sort whitelist and no ASC/DESC
  normalisation. `orderBy` interpolates its order verbatim
  (SqlBuilder.js:55-58).

## Left out

- Database, file and HTTP I/O: table creation, CSV import and the Express
  server (index.js). These are outside the builder.
- The handler's `req.db.prepare(sql).all()`, `res.send` and error-to-500
  mapping (controllers/hall_of_fame.js:22-28). These are a database call and
  an HTTP response. Only the builder chain is modelled.
- Routing (routes/hall_of_fame.js). It refers to handlers `search` and
  `getByYear`, which the controller does not define.
- Argument types: JavaScript interpolates any value through ToString. The
  model takes strings for names and safe integers for `limit`/`offset`.
  `null`/`undefined` elements, which `join` renders as `""`, and non-string
  objects are not modelled.
- Builder.SqlBuilder.Offset: takes only safe integers (magnitude at most
  2^53 - 1). JavaScript gives other numbers a text the model does not
  produce: a rounded numeral above 2^53 (`1152921504606847000` for 2^60),
  exponent form from 10^21 (`1e+21`), and fractions, `NaN` and `Infinity`.
- Builder.SqlBuilder.Limit: the same restriction to safe integers as
  `Offset`, for the same reason.
- Default arguments: JavaScript also applies a default when `undefined` is
  passed explicitly. Dafny applies `Where`'s and `OrderBy`'s defaults only
  when the argument is omitted.
- Chaining: a Dafny method call cannot be chained inside an expression.
  Each clause method returns the builder (`r == this`) and calls are made
  one statement at a time.
- Privacy of `#sql`: the model's `sql` field is readable and writable by clients, and so is the ghost `calls`.
- Builder.SqlBuilder.Build: its placeholder count is stated only for calls
  whose names contain no `?`. A name that contains one adds placeholders
  the builder does not know about.
