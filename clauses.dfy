/** The SQL fragments the builder produces: one constructor per clause
    method of SQLBuilder, holding that method's arguments, and the fragment
    text the method formats from them. Caller-supplied names are
    interpolated verbatim; only `where`, `insert` and `update` emit `?`
    placeholders of their own. */
module Clauses {
  import Text
  import Decimal

  /** One call of a clause method, with its arguments. */
  datatype Clause =
    | Select(fields: seq<string>)
    | From(table: string)
    | Where(column: string, operator: string)
    | Insert(table: string, columns: seq<string>)
    | Update(table: string, columns: seq<string>)
    | Offset(offset: Decimal.SafeInteger)
    | Limit(limit: Decimal.SafeInteger)
    | Delete(table: string)
    | Join(table: string, on: string)
    | LeftJoin(table: string, on: string)
    | OrderBy(column: string, order: string)
    | GroupBy(column: string)
  {
    /** The SQL keyword the method's fragment opens with. */
    function Keyword(): (k: string)
      ensures k != []
    {
      match this
      case Select(_) => "SELECT "
      case From(_) => "FROM "
      case Where(_, _) => "WHERE "
      case Insert(_, _) => "INSERT INTO "
      case Update(_, _) => "UPDATE "
      case Offset(_) => "OFFSET "
      case Limit(_) => "LIMIT "
      case Delete(_) => "DELETE FROM "
      case Join(_, _) => "JOIN "
      case LeftJoin(_, _) => "LEFT JOIN "
      case OrderBy(_, _) => "ORDER BY "
      case GroupBy(_) => "GROUP BY "
    }

    /** The fragment the method pushes onto the builder's list; it opens
        with the clause's keyword, whatever the arguments. */
    function Fragment(): (r: string)
      ensures Keyword() <= r
    {
      match this
      case Select(fields) => "SELECT " + (if |fields| > 0 then Text.Join(fields, ", ") else "*")
      case From(table) => "FROM " + table
      case Where(column, operator) => "WHERE " + column + " " + operator + " ?"
      case Insert(table, columns) =>
        "INSERT INTO " + table + " (" + Text.Join(columns, ", ") + ") VALUES ("
        + Text.Join(Marks(|columns|), ", ") + ")"
      case Update(table, columns) => "UPDATE " + table + " SET " + Text.Join(Assignments(columns), ", ")
      case Offset(n) => "OFFSET " + Decimal.Render(n)
      case Limit(n) => "LIMIT " + Decimal.Render(n)
      case Delete(table) => "DELETE FROM " + table
      case Join(table, on) => "JOIN " + table + " ON " + on
      case LeftJoin(table, on) => "LEFT JOIN " + table + " ON " + on
      case OrderBy(column, order) => "ORDER BY " + column + " " + order
      case GroupBy(column) => "GROUP BY " + column
    }

    /** The number of values an executor must bind for this fragment: one
        for a WHERE comparison, one per column for INSERT and UPDATE. */
    function Placeholders(): nat
    {
      match this
      case Where(_, _) => 1
      case Insert(_, columns) => |columns|
      case Update(_, columns) => |columns|
      case _ => 0
    }

    /** The caller-supplied strings the fragment interpolates verbatim. */
    function Names(): seq<string>
    {
      match this
      case Select(fields) => fields
      case From(table) => [table]
      case Where(column, operator) => [column, operator]
      case Insert(table, columns) => [table] + columns
      case Update(table, columns) => [table] + columns
      case Offset(_) => []
      case Limit(_) => []
      case Delete(table) => [table]
      case Join(table, on) => [table, on]
      case LeftJoin(table, on) => [table, on]
      case OrderBy(column, order) => [column, order]
      case GroupBy(column) => [column]
    }
  }

  /** `columns.map(() => "?")` for `n` columns: one "?" per column. */
  function Marks(n: nat): (r: seq<string>)
    ensures |r| == n && forall i :: 0 <= i < n ==> r[i] == "?"
  {
    if n == 0 then [] else ["?"] + Marks(n - 1)
  }

  /** `columns.map((c) => `${c} = ?`)`: entry `i` sets column `i`. */
  function Assignments(columns: seq<string>): (r: seq<string>)
    ensures |r| == |columns| && forall i :: 0 <= i < |columns| ==> r[i] == columns[i] + " = ?"
  {
    if columns == [] then [] else [columns[0] + " = ?"] + Assignments(columns[1..])
  }

  /** The fragments of a sequence of calls, in call order. */
  function Fragments(calls: seq<Clause>): (r: seq<string>)
    ensures |r| == |calls|
  {
    if calls == [] then [] else [calls[0].Fragment()] + Fragments(calls[1..])
  }

  /** The text `build()` returns after the given calls. Every fragment is
      non-empty, so the text is empty exactly when no call was made. */
  function Query(calls: seq<Clause>): (r: string)
    ensures r == "" <==> calls == []
  {
    var parts := Fragments(calls);
    assert calls != [] ==> parts[0] == calls[0].Fragment();
    Text.Join(parts, " ")
  }

  /** The number of values an executor must bind for the whole query. */
  function TotalPlaceholders(calls: seq<Clause>): nat
  {
    if calls == [] then 0 else calls[0].Placeholders() + TotalPlaceholders(calls[1..])
  }

  /** No caller-supplied name in any call contains a `?`. */
  predicate QuestionFree(calls: seq<Clause>)
  {
    forall i :: 0 <= i < |calls| ==> Text.Lacks(calls[i].Names(), '?')
  }

  /** `select()` without fields selects every column. */
  lemma SelectAll()
    ensures Select([]).Fragment() == "SELECT *"
  {
  }

  /** `select(f1, …, fn)` lists the fields in argument order: field `i` sits
      right after "SELECT " and the fields before it, each earlier field
      followed by ", ", and the last field ends the fragment. */
  lemma SelectFieldAt(fields: seq<string>, i: nat)
    requires i < |fields|
    ensures Select(fields).Fragment()[..7] == "SELECT "
    ensures 7 + Text.PartStart(fields, ", ", i) + |fields[i]| <= |Select(fields).Fragment()|
    ensures Select(fields).Fragment()[7 + Text.PartStart(fields, ", ", i)..7 + Text.PartStart(fields, ", ", i) + |fields[i]|]
         == fields[i]
    ensures i + 1 < |fields| ==>
              7 + Text.PartStart(fields, ", ", i + 1) <= |Select(fields).Fragment()|
              && Text.PartStart(fields, ", ", i) + |fields[i]| <= Text.PartStart(fields, ", ", i + 1)
              && Select(fields).Fragment()[7 + Text.PartStart(fields, ", ", i) + |fields[i]|..7 + Text.PartStart(fields, ", ", i + 1)]
                 == ", "
    ensures i + 1 == |fields| ==> 7 + Text.PartStart(fields, ", ", i) + |fields[i]| == |Select(fields).Fragment()|
  {
    assert Select(fields).Fragment() == "SELECT " + Text.Join(fields, ", ");
    assert |"SELECT "| == 7;
    Text.PrefixedJoinAt("SELECT ", fields, ", ", i);
  }

  /** `n` marks hold `n` question marks in all. */
  lemma {:induction false} MarksCount(n: nat)
    ensures Text.SumCount(Marks(n), '?') == n
  {
    if n > 0 {
      MarksCount(n - 1);
      assert Marks(n)[1..] == Marks(n - 1);
    }
  }

  /** The assignments hold the question marks of the column names plus one
      placeholder each. */
  lemma {:induction false} AssignmentsCount(columns: seq<string>)
    ensures Text.SumCount(Assignments(columns), '?') == Text.SumCount(columns, '?') + |columns|
  {
    if columns != [] {
      AssignmentsCount(columns[1..]);
      var a := Assignments(columns);
      assert a[1..] == Assignments(columns[1..]);
      Text.CountConcat(columns[0], " = ?", '?');
    }
  }

  /** The names a call interpolates, minus its first one. */
  lemma LacksTail(names: seq<string>, rest: seq<string>)
    requires |names| == |rest| + 1 && names[1..] == rest
    requires Text.Lacks(names, '?')
    ensures Text.Lacks(rest, '?') && '?' !in names[0]
  {
    assert forall i :: 0 <= i < |rest| ==> rest[i] == names[i + 1];
  }

  /** `where(column, operator)` emits exactly one placeholder, its last character. */
  lemma WherePlaceholder(column: string, operator: string)
    requires '?' !in column && '?' !in operator
    ensures Text.Count(Where(column, operator).Fragment(), '?') == 1
    ensures Where(column, operator).Fragment()[|Where(column, operator).Fragment()| - 1] == '?'
  {
    var prefix := "WHERE " + column + " " + operator + " ";
    assert Where(column, operator).Fragment() == prefix + "?";
    Text.CountAbsent(prefix, '?');
    Text.CountConcat(prefix, "?", '?');
  }

  /** `insert(table, columns)` lists the columns and then one `?` per column. */
  lemma InsertPlaceholders(table: string, columns: seq<string>)
    requires '?' !in table && Text.Lacks(columns, '?')
    ensures Text.Count(Insert(table, columns).Fragment(), '?') == |columns|
  {
    var head := "INSERT INTO " + table + " (" + Text.Join(columns, ", ") + ") VALUES (";
    var values := Text.Join(Marks(|columns|), ", ");
    assert Insert(table, columns).Fragment() == head + values + ")";
    Text.JoinLacks(columns, ", ", '?');
    Text.CountAbsent(head, '?');
    MarksCount(|columns|);
    Text.CountJoin(Marks(|columns|), ", ", '?');
    Text.CountAbsent(", ", '?');
    Text.CountAbsent(")", '?');
    Text.CountConcat(head, values, '?');
    Text.CountConcat(head + values, ")", '?');
  }

  /** `update(table, columns)` sets every column to its own `?`. */
  lemma UpdatePlaceholders(table: string, columns: seq<string>)
    requires '?' !in table && Text.Lacks(columns, '?')
    ensures Text.Count(Update(table, columns).Fragment(), '?') == |columns|
  {
    var head := "UPDATE " + table + " SET ";
    var sets := Text.Join(Assignments(columns), ", ");
    assert Update(table, columns).Fragment() == head + sets;
    Text.CountAbsent(head, '?');
    Text.SumCountLacks(columns, '?');
    AssignmentsCount(columns);
    Text.CountJoin(Assignments(columns), ", ", '?');
    Text.CountAbsent(", ", '?');
    Text.CountConcat(head, sets, '?');
  }

  /** `limit(n)` and `offset(n)` put the number itself into the text, for
      every safe integer n: the fragment ends with a numeral that parses back to n, and
      no placeholder is emitted. */
  lemma PagingVerbatim(n: Decimal.SafeInteger)
    ensures var l := Limit(n).Fragment();
            l[..6] == "LIMIT " && Decimal.IsNumeral(l[6..]) && Decimal.Parse(l[6..]) == n
    ensures var o := Offset(n).Fragment();
            o[..7] == "OFFSET " && Decimal.IsNumeral(o[7..]) && Decimal.Parse(o[7..]) == n
    ensures Text.Count(Limit(n).Fragment(), '?') == 0 && Text.Count(Offset(n).Fragment(), '?') == 0
  {
    Decimal.RenderRoundTrip(n);
    var r := Decimal.Render(n);
    assert Limit(n).Fragment() == "LIMIT " + r;
    assert Offset(n).Fragment() == "OFFSET " + r;
    assert ("LIMIT " + r)[6..] == r;
    assert ("OFFSET " + r)[7..] == r;
    Text.CountAbsent("LIMIT " + r, '?');
    Text.CountAbsent("OFFSET " + r, '?');
  }

  /** `orderBy(column, order)` interpolates the order verbatim after the
      column: the fragment ends with a space and exactly `order`, whatever
      its case or content. */
  lemma OrderByVerbatim(column: string, order: string)
    ensures var f := OrderBy(column, order).Fragment();
            |f| == |"ORDER BY "| + |column| + 1 + |order|
            && f[..|"ORDER BY "| + |column|] == "ORDER BY " + column
            && f[|"ORDER BY "| + |column|] == ' '
            && f[|f| - |order|..] == order
  {
    var f := OrderBy(column, order).Fragment();
    assert f == ("ORDER BY " + column + " ") + order;
  }

  /** Each fragment holds exactly as many `?` placeholders as values it
      expects to be bound (one for WHERE, one per column for INSERT and
      UPDATE, none for every other clause), provided the caller's names
      contain no `?` of their own. */
  lemma FragmentPlaceholders(c: Clause)
    requires Text.Lacks(c.Names(), '?')
    ensures Text.Count(c.Fragment(), '?') == c.Placeholders()
  {
    var names := c.Names();
    match c
    case Where(column, operator) =>
      assert names[0] == column && names[1] == operator;
      WherePlaceholder(column, operator);
    case Insert(table, columns) =>
      LacksTail(names, columns);
      InsertPlaceholders(table, columns);
    case Update(table, columns) =>
      LacksTail(names, columns);
      UpdatePlaceholders(table, columns);
    case Offset(n) =>
      PagingVerbatim(n);
    case Limit(n) =>
      PagingVerbatim(n);
    case _ =>
      NamesOnly(c);
      Text.CountAbsent(c.Fragment(), '?');
  }

  /** The clauses that only interpolate names around their keywords hold no
      `?` when the names hold none. */
  lemma NamesOnly(c: Clause)
    requires !(c.Where? || c.Insert? || c.Update? || c.Offset? || c.Limit?)
    requires Text.Lacks(c.Names(), '?')
    ensures '?' !in c.Fragment()
  {
    var names := c.Names();
    match c
    case Select(fields) =>
      if |fields| > 0 {
        Text.JoinLacks(fields, ", ", '?');
      }
    case From(table) =>
      assert names[0] == table;
      LacksMark2("FROM ", table);
    case Delete(table) =>
      assert names[0] == table;
      LacksMark2("DELETE FROM ", table);
    case Join(table, on) =>
      assert names[0] == table && names[1] == on;
      LacksMark4("JOIN ", table, " ON ", on);
    case LeftJoin(table, on) =>
      assert names[0] == table && names[1] == on;
      LacksMark4("LEFT JOIN ", table, " ON ", on);
    case OrderBy(column, order) =>
      assert names[0] == column && names[1] == order;
      LacksMark4("ORDER BY ", column, " ", order);
    case GroupBy(column) =>
      assert names[0] == column;
      LacksMark2("GROUP BY ", column);
  }

  /** Concatenating strings without a `?` gives a string without one. */
  lemma LacksMark2(a: string, b: string)
    requires '?' !in a && '?' !in b
    ensures '?' !in a + b
  {
  }

  /** The same, for four strings. */
  lemma LacksMark4(a: string, b: string, c: string, d: string)
    requires '?' !in a && '?' !in b && '?' !in c && '?' !in d
    ensures '?' !in a + b + c + d
  {
  }

  /** There is one fragment per call. */
  lemma {:induction false} FragmentsAt(calls: seq<Clause>, i: nat)
    requires i < |calls|
    ensures |Fragments(calls)| == |calls|
    ensures Fragments(calls)[i] == calls[i].Fragment()
  {
    if i > 0 {
      FragmentsAt(calls[1..], i - 1);
    } else if |calls| > 1 {
      FragmentsAt(calls[1..], 0);
    }
  }

  /** One more call appends exactly its own fragment to the list. */
  lemma {:induction false} FragmentsSnoc(calls: seq<Clause>, c: Clause)
    ensures Fragments(calls + [c]) == Fragments(calls) + [c.Fragment()]
  {
    if calls != [] {
      assert (calls + [c])[1..] == calls[1..] + [c];
      FragmentsSnoc(calls[1..], c);
    }
  }

  /** One more call extends the built query by a space and its fragment;
      after the first call the query is that call's fragment alone. */
  lemma QuerySnoc(calls: seq<Clause>, c: Clause)
    ensures Query(calls + [c]) == if calls == [] then c.Fragment() else Query(calls) + " " + c.Fragment()
  {
    FragmentsSnoc(calls, c);
    Text.JoinSnoc(Fragments(calls), " ", c.Fragment());
    if calls != [] {
      FragmentsAt(calls, 0);
    }
  }

  /** The fragment of call `i` sits in the built query after the fragments of
      all earlier calls, each followed by one space. */
  lemma QueryFragmentAt(calls: seq<Clause>, i: nat)
    requires i < |calls|
    ensures var q := Query(calls);
            var o := Text.PartStart(Fragments(calls), " ", i);
            o + |calls[i].Fragment()| <= |q| && q[o..o + |calls[i].Fragment()|] == calls[i].Fragment()
  {
    FragmentsAt(calls, i);
    Text.JoinAtPart(Fragments(calls), " ", i, calls[i].Fragment());
  }

  /** The placeholders of the fragments, summed. */
  lemma {:induction false} SumCountFragments(calls: seq<Clause>)
    requires QuestionFree(calls)
    ensures Text.SumCount(Fragments(calls), '?') == TotalPlaceholders(calls)
  {
    if calls != [] {
      assert QuestionFree(calls[1..]) by {
        assert forall i :: 0 <= i < |calls| - 1 ==> calls[1..][i] == calls[i + 1];
      }
      assert Text.Lacks(calls[0].Names(), '?');
      FragmentPlaceholders(calls[0]);
      SumCountFragments(calls[1..]);
    }
  }

  /** The built query holds exactly as many `?` placeholders as values the
      calls expect to be bound, so a value list with one entry per WHERE
      comparison and per INSERT or UPDATE column lines up with it. */
  lemma QueryPlaceholders(calls: seq<Clause>)
    requires QuestionFree(calls)
    ensures Text.Count(Query(calls), '?') == TotalPlaceholders(calls)
  {
    var parts := Fragments(calls);
    var blanks := Text.Count(" ", '?');
    assert blanks == 0;
    Text.CountJoin(parts, " ", '?');
    assert Text.Count(Query(calls), '?') == Text.SumCount(parts, '?') + (if parts == [] then 0 else (|parts| - 1) * blanks);
    SumCountFragments(calls);
  }
}
