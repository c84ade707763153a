/** The SQLBuilder class: a private, ordered list of SQL fragments that
    every clause method extends by exactly one fragment at its end before
    returning the builder itself, and `build`, which joins the list with
    single spaces without changing it. */
module Builder {
  import Text
  import opened Clauses
  import Decimal

  class SqlBuilder {
    /** The fragments pushed so far, in call order (`#sql`). */
    var sql: seq<string>
    /** The clause calls that produced them. */
    ghost var calls: seq<Clause>

    ghost predicate Valid()
      reads this
    {
      sql == Fragments(calls)
    }

    /** A new builder holds no fragment. */
    constructor ()
      ensures Valid() && sql == [] && calls == []
    {
      sql := [];
      calls := [];
    }

    /** The `this.#sql.push(…)` every clause method performs. */
    method Push(c: Clause)
      requires Valid()
      modifies this
      ensures Valid()
      ensures calls == old(calls) + [c]
      ensures sql == old(sql) + [c.Fragment()]
    {
      FragmentsSnoc(calls, c);
      sql := sql + [c.Fragment()];
      calls := calls + [c];
    }

    method Select(fields: seq<string>) returns (r: SqlBuilder)
      requires Valid()
      modifies this
      ensures Valid() && r == this
      ensures calls == old(calls) + [Clause.Select(fields)]
      ensures sql == old(sql) + [Clause.Select(fields).Fragment()]
    {
      Push(Clause.Select(fields));
      r := this;
    }

    method From(table: string) returns (r: SqlBuilder)
      requires Valid()
      modifies this
      ensures Valid() && r == this
      ensures calls == old(calls) + [Clause.From(table)]
      ensures sql == old(sql) + [Clause.From(table).Fragment()]
    {
      Push(Clause.From(table));
      r := this;
    }

    method Where(column: string, operator: string := "=") returns (r: SqlBuilder)
      requires Valid()
      modifies this
      ensures Valid() && r == this
      ensures calls == old(calls) + [Clause.Where(column, operator)]
      ensures sql == old(sql) + [Clause.Where(column, operator).Fragment()]
    {
      Push(Clause.Where(column, operator));
      r := this;
    }

    method Insert(table: string, columns: seq<string>) returns (r: SqlBuilder)
      requires Valid()
      modifies this
      ensures Valid() && r == this
      ensures calls == old(calls) + [Clause.Insert(table, columns)]
      ensures sql == old(sql) + [Clause.Insert(table, columns).Fragment()]
    {
      Push(Clause.Insert(table, columns));
      r := this;
    }

    method Update(table: string, columns: seq<string>) returns (r: SqlBuilder)
      requires Valid()
      modifies this
      ensures Valid() && r == this
      ensures calls == old(calls) + [Clause.Update(table, columns)]
      ensures sql == old(sql) + [Clause.Update(table, columns).Fragment()]
    {
      Push(Clause.Update(table, columns));
      r := this;
    }

    method Offset(offset: Decimal.SafeInteger) returns (r: SqlBuilder)
      requires Valid()
      modifies this
      ensures Valid() && r == this
      ensures calls == old(calls) + [Clause.Offset(offset)]
      ensures sql == old(sql) + [Clause.Offset(offset).Fragment()]
    {
      Push(Clause.Offset(offset));
      r := this;
    }

    method Limit(limit: Decimal.SafeInteger) returns (r: SqlBuilder)
      requires Valid()
      modifies this
      ensures Valid() && r == this
      ensures calls == old(calls) + [Clause.Limit(limit)]
      ensures sql == old(sql) + [Clause.Limit(limit).Fragment()]
    {
      Push(Clause.Limit(limit));
      r := this;
    }

    method Delete(table: string) returns (r: SqlBuilder)
      requires Valid()
      modifies this
      ensures Valid() && r == this
      ensures calls == old(calls) + [Clause.Delete(table)]
      ensures sql == old(sql) + [Clause.Delete(table).Fragment()]
    {
      Push(Clause.Delete(table));
      r := this;
    }

    method Join(table: string, on: string) returns (r: SqlBuilder)
      requires Valid()
      modifies this
      ensures Valid() && r == this
      ensures calls == old(calls) + [Clause.Join(table, on)]
      ensures sql == old(sql) + [Clause.Join(table, on).Fragment()]
    {
      Push(Clause.Join(table, on));
      r := this;
    }

    method LeftJoin(table: string, on: string) returns (r: SqlBuilder)
      requires Valid()
      modifies this
      ensures Valid() && r == this
      ensures calls == old(calls) + [Clause.LeftJoin(table, on)]
      ensures sql == old(sql) + [Clause.LeftJoin(table, on).Fragment()]
    {
      Push(Clause.LeftJoin(table, on));
      r := this;
    }

    method OrderBy(column: string, order: string := "ASC") returns (r: SqlBuilder)
      requires Valid()
      modifies this
      ensures Valid() && r == this
      ensures calls == old(calls) + [Clause.OrderBy(column, order)]
      ensures sql == old(sql) + [Clause.OrderBy(column, order).Fragment()]
    {
      Push(Clause.OrderBy(column, order));
      r := this;
    }

    method GroupBy(column: string) returns (r: SqlBuilder)
      requires Valid()
      modifies this
      ensures Valid() && r == this
      ensures calls == old(calls) + [Clause.GroupBy(column)]
      ensures sql == old(sql) + [Clause.GroupBy(column).Fragment()]
    {
      Push(Clause.GroupBy(column));
      r := this;
    }

    /** The fragments joined by single spaces in call order; the list is left
        as it is (no modifies clause), so building twice gives the same text.
        The text holds one `?` per value the calls expect to be bound. */
    method Build() returns (q: string)
      requires Valid()
      ensures q == Text.Join(sql, " ")
      ensures sql == [] ==> q == ""
      ensures QuestionFree(calls) ==> Text.Count(q, '?') == TotalPlaceholders(calls)
    {
      q := Text.Join(sql, " ");
      if QuestionFree(calls) {
        QueryPlaceholders(calls);
      }
    }
  }
}
