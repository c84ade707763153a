/** The builder chain of the hall-of-fame listing handler, run on its
    fixed arguments. */
module HallOfFame {
  import Text
  import opened Clauses
  import opened Builder

  /** Seven parts joined in order. */
  lemma JoinSeven(parts: seq<string>, sep: string)
    requires |parts| == 7
    ensures Text.Join(parts, sep)
         == parts[0] + sep + parts[1] + sep + parts[2] + sep + parts[3] + sep + parts[4] + sep + parts[5]
          + sep + parts[6]
  {
    assert parts[..1] + [parts[1]] == parts[..2];
    assert parts[..2] + [parts[2]] == parts[..3];
    assert parts[..3] + [parts[3]] == parts[..4];
    assert parts[..4] + [parts[4]] == parts[..5];
    assert parts[..5] + [parts[5]] == parts[..6];
    assert parts[..6] + [parts[6]] == parts;
    assert Text.Join(parts[..1], sep) == parts[0];
    Text.JoinSnoc(parts[..1], sep, parts[1]);
    Text.JoinSnoc(parts[..2], sep, parts[2]);
    Text.JoinSnoc(parts[..3], sep, parts[3]);
    Text.JoinSnoc(parts[..4], sep, parts[4]);
    Text.JoinSnoc(parts[..5], sep, parts[5]);
    Text.JoinSnoc(parts[..6], sep, parts[6]);
  }

  /** The calls of the listing handler's chain, for any names. */
  function ListingCalls(fields: seq<string>, from: string, joins: seq<(string, string)>): seq<Clause>
    requires |joins| == 5
  {
    [Clause.Select(fields), Clause.From(from),
     Clause.Join(joins[0].0, joins[0].1), Clause.Join(joins[1].0, joins[1].1),
     Clause.Join(joins[2].0, joins[2].1), Clause.Join(joins[3].0, joins[3].1),
     Clause.Join(joins[4].0, joins[4].1)]
  }

  /** A prefix followed by a joined list grows by the separator and the
      new part when a part is appended. */
  lemma PrefixJoinSnoc(prefix: string, parts: seq<string>, sep: string, last: string)
    requires parts != []
    ensures prefix + Text.Join(parts + [last], sep) == prefix + Text.Join(parts, sep) + sep + last
  {
    Text.JoinSnoc(parts, sep, last);
  }

  /** Six select fields are listed in order, separated by ", ". */
  lemma SelectSix(fields: seq<string>)
    requires |fields| == 6
    ensures Clause.Select(fields).Fragment()
         == "SELECT " + fields[0] + ", " + fields[1] + ", " + fields[2] + ", " + fields[3]
          + ", " + fields[4] + ", " + fields[5]
  {
    var p, sep := "SELECT ", ", ";
    assert Clause.Select(fields).Fragment() == p + Text.Join(fields, sep);
    assert fields[..1] + [fields[1]] == fields[..2];
    assert fields[..2] + [fields[2]] == fields[..3];
    assert fields[..3] + [fields[3]] == fields[..4];
    assert fields[..4] + [fields[4]] == fields[..5];
    assert fields[..5] + [fields[5]] == fields;
    assert p + Text.Join(fields[..1], sep) == p + fields[0];
    PrefixJoinSnoc(p, fields[..1], sep, fields[1]);
    PrefixJoinSnoc(p, fields[..2], sep, fields[2]);
    PrefixJoinSnoc(p, fields[..3], sep, fields[3]);
    PrefixJoinSnoc(p, fields[..4], sep, fields[4]);
    PrefixJoinSnoc(p, fields[..5], sep, fields[5]);
  }

  /** The seven fragments of the listing chain, in call order. */
  lemma ListingFragments(fields: seq<string>, from: string, joins: seq<(string, string)>)
    requires |fields| == 6 && |joins| == 5
    ensures Fragments(ListingCalls(fields, from, joins))
         == [Clause.Select(fields).Fragment(), "FROM " + from,
             "JOIN " + joins[0].0 + " ON " + joins[0].1,
             "JOIN " + joins[1].0 + " ON " + joins[1].1,
             "JOIN " + joins[2].0 + " ON " + joins[2].1,
             "JOIN " + joins[3].0 + " ON " + joins[3].1,
             "JOIN " + joins[4].0 + " ON " + joins[4].1]
  {
    var calls := ListingCalls(fields, from, joins);
    forall i | 0 <= i < 7
      ensures Fragments(calls)[i] == calls[i].Fragment()
    {
      FragmentsAt(calls, i);
    }
  }

  /** The shape of the listing query: the six fields after SELECT, the table
      after FROM, then each joined table with its condition, all separated
      as the clause methods and `build` separate them. */
  lemma ListingShape(fields: seq<string>, from: string, joins: seq<(string, string)>)
    requires |fields| == 6 && |joins| == 5
    ensures Query(ListingCalls(fields, from, joins))
         == ("SELECT " + fields[0] + ", " + fields[1] + ", " + fields[2] + ", " + fields[3]
             + ", " + fields[4] + ", " + fields[5])
          + " " + ("FROM " + from)
          + " " + ("JOIN " + joins[0].0 + " ON " + joins[0].1)
          + " " + ("JOIN " + joins[1].0 + " ON " + joins[1].1)
          + " " + ("JOIN " + joins[2].0 + " ON " + joins[2].1)
          + " " + ("JOIN " + joins[3].0 + " ON " + joins[3].1)
          + " " + ("JOIN " + joins[4].0 + " ON " + joins[4].1)
  {
    ListingFragments(fields, from, joins);
    SelectSix(fields);
    JoinSeven(Fragments(ListingCalls(fields, from, joins)), " ");
  }

  /** The listing handler's chain on given names: select the fields, from
      the table, join each lookup table on its condition, and build. */
  method ListingChain(fields: seq<string>, from: string, joins: seq<(string, string)>) returns (sql: string)
    requires |joins| == 5
    ensures sql == Query(ListingCalls(fields, from, joins))
  {
    ghost var calls := ListingCalls(fields, from, joins);
    var b := new SqlBuilder();
    b := b.Select(fields);
    assert b.calls == calls[..1];
    b := b.From(from);
    assert b.calls == calls[..2];
    b := b.Join(joins[0].0, joins[0].1);
    assert b.calls == calls[..3];
    b := b.Join(joins[1].0, joins[1].1);
    assert b.calls == calls[..4];
    b := b.Join(joins[2].0, joins[2].1);
    assert b.calls == calls[..5];
    b := b.Join(joins[3].0, joins[3].1);
    assert b.calls == calls[..6];
    b := b.Join(joins[4].0, joins[4].1);
    assert b.calls == calls;
    sql := b.Build();
  }

  /** The six columns the hall-of-fame listing selects. */
  const HofFields: seq<string> := [
    "hof.title",
    "a.artist as artist",
    "c.category as category",
    "ind.year as inducted",
    "rel.year as released",
    "l.label as label"
  ]

  /** The table it reads from. */
  const HofTable: string := "hall_of_fame as hof"

  /** The five lookup tables it joins, each with its join condition. */
  const HofJoins: seq<(string, string)> := [
    ("artist as a", "hof.artist_id = a.id"),
    ("category as c", "hof.category_id = c.id"),
    ("inducted as ind", "hof.inducted_id = ind.id"),
    ("released as rel", "hof.released_id = rel.id"),
    ("label as l", "hof.label_id = l.id")
  ]

  /** None of the listing's names contains a `?`. */
  lemma HofNamesLackMarks()
    ensures Text.Lacks(HofFields, '?') && '?' !in HofTable
    ensures forall k :: 0 <= k < 5 ==> '?' !in HofJoins[k].0 && '?' !in HofJoins[k].1
  {
    forall i | 0 <= i < 6
      ensures '?' !in HofFields[i]
    {
      HofFieldLacksMarks(i);
    }
    forall k | 0 <= k < 5
      ensures '?' !in HofJoins[k].0 && '?' !in HofJoins[k].1
    {
      HofJoinLacksMarks(k);
    }
  }

  lemma HofFieldLacksMarks(i: nat)
    requires i < 6
    ensures '?' !in HofFields[i]
  {
    if i == 0 { assert HofFields[0] == "hof.title"; }
    else if i == 1 { assert HofFields[1] == "a.artist as artist"; }
    else if i == 2 { assert HofFields[2] == "c.category as category"; }
    else if i == 3 { assert HofFields[3] == "ind.year as inducted"; }
    else if i == 4 { assert HofFields[4] == "rel.year as released"; }
    else { assert HofFields[5] == "l.label as label"; }
  }

  lemma HofJoinLacksMarks(k: nat)
    requires k < 5
    ensures '?' !in HofJoins[k].0 && '?' !in HofJoins[k].1
  {
    if k == 0 { assert HofJoins[0] == ("artist as a", "hof.artist_id = a.id"); }
    else if k == 1 { assert HofJoins[1] == ("category as c", "hof.category_id = c.id"); }
    else if k == 2 { assert HofJoins[2] == ("inducted as ind", "hof.inducted_id = ind.id"); }
    else if k == 3 { assert HofJoins[3] == ("released as rel", "hof.released_id = rel.id"); }
    else { assert HofJoins[4] == ("label as l", "hof.label_id = l.id"); }
  }

  /** The listing query on the handler's own names, written fragment by
      fragment as the pieces each fragment is made of. */
  lemma HofListingText()
    ensures Query(ListingCalls(HofFields, HofTable, HofJoins))
         == ("SELECT " + "hof.title" + ", " + "a.artist as artist" + ", " + "c.category as category"
             + ", " + "ind.year as inducted" + ", " + "rel.year as released" + ", " + "l.label as label")
          + " " + ("FROM " + "hall_of_fame as hof")
          + " " + ("JOIN " + "artist as a" + " ON " + "hof.artist_id = a.id")
          + " " + ("JOIN " + "category as c" + " ON " + "hof.category_id = c.id")
          + " " + ("JOIN " + "inducted as ind" + " ON " + "hof.inducted_id = ind.id")
          + " " + ("JOIN " + "released as rel" + " ON " + "hof.released_id = rel.id")
          + " " + ("JOIN " + "label as l" + " ON " + "hof.label_id = l.id")
  {
    ListingShape(HofFields, HofTable, HofJoins);
  }

  /** The hall-of-fame listing query: six columns from the hall_of_fame
      table joined to its five lookup tables. The expected text is written
      fragment by fragment, each fragment as the pieces it is made of; it
      needs no bound values. */
  method HallOfFameQuery() returns (sql: string)
    ensures sql == ("SELECT " + "hof.title" + ", " + "a.artist as artist" + ", " + "c.category as category"
                    + ", " + "ind.year as inducted" + ", " + "rel.year as released" + ", " + "l.label as label")
                 + " " + ("FROM " + "hall_of_fame as hof")
                 + " " + ("JOIN " + "artist as a" + " ON " + "hof.artist_id = a.id")
                 + " " + ("JOIN " + "category as c" + " ON " + "hof.category_id = c.id")
                 + " " + ("JOIN " + "inducted as ind" + " ON " + "hof.inducted_id = ind.id")
                 + " " + ("JOIN " + "released as rel" + " ON " + "hof.released_id = rel.id")
                 + " " + ("JOIN " + "label as l" + " ON " + "hof.label_id = l.id")
    ensures Text.Count(sql, '?') == 0
  {
    sql := ListingChain(HofFields, HofTable, HofJoins);
    HofListingText();
    HofNamesLackMarks();
    ListingNeedsNoValues(HofFields, HofTable, HofJoins);
  }

  /** Calls that each expect no value expect none together. */
  lemma {:induction false} NoPlaceholders(calls: seq<Clause>)
    requires forall i :: 0 <= i < |calls| ==> calls[i].Placeholders() == 0
    ensures TotalPlaceholders(calls) == 0
  {
    if calls != [] {
      assert forall i :: 0 <= i < |calls| - 1 ==> calls[1..][i] == calls[i + 1];
      NoPlaceholders(calls[1..]);
    }
  }

  /** The listing chain binds no values: when no name in it contains a `?`,
      its text holds no placeholder. */
  lemma ListingNeedsNoValues(fields: seq<string>, from: string, joins: seq<(string, string)>)
    requires |joins| == 5
    requires Text.Lacks(fields, '?') && '?' !in from
    requires forall k :: 0 <= k < 5 ==> '?' !in joins[k].0 && '?' !in joins[k].1
    ensures Text.Count(Query(ListingCalls(fields, from, joins)), '?') == 0
  {
    var calls := ListingCalls(fields, from, joins);
    forall i | 0 <= i < 7
      ensures Text.Lacks(calls[i].Names(), '?')
    {
      if i >= 2 {
        assert calls[i].Names() == [joins[i - 2].0, joins[i - 2].1];
      }
    }
    QueryPlaceholders(calls);
    NoPlaceholders(calls);
  }
}
