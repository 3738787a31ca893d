/** Row lookup by key column (`normalizeKey` and the reordering and filtering
    done by `doSearch`). */
module Search {
  import opened Text
  import opened Seqs
  import opened Csv

  /** `normalizeKey`: lower-case, then trim. */
  function NormalizeKey(s: string): (k: string)
    ensures IsTrimOf(Lower(s), k)
    ensures NoUpper(k)
  {
    TrimKeepsNoUpper(Lower(s));
    Trim(Lower(s))
  }

  lemma NormalizeKeyIdempotent(s: string)
    ensures NormalizeKey(NormalizeKey(s)) == NormalizeKey(s)
  {
    TrimIdempotent(Lower(s));
  }

  /** The row's key equals the query after normalising both. */
  predicate IsExact(r: Row, keyField: string, q: string) {
    NormalizeKey(Cell(r, keyField)) == NormalizeKey(q)
  }

  /** The row's normalised key contains the normalised query. */
  predicate Contains(r: Row, keyField: string, q: string) {
    Includes(NormalizeKey(Cell(r, keyField)), NormalizeKey(q))
  }

  /** An exact key match is also a substring match. */
  lemma ExactIsContained(r: Row, keyField: string, q: string)
    requires IsExact(r, keyField, q)
    ensures Contains(r, keyField, q)
  {
    assert OccursAt(NormalizeKey(Cell(r, keyField)), NormalizeKey(q), 0);
  }

  /** Position of the row `rows.find` returns for an exact key match, or
      `|rows|` when there is none. */
  function FirstExact(rows: seq<Row>, keyField: string, q: string): (k: nat)
    ensures k <= |rows|
    ensures k < |rows| ==> IsExact(rows[k], keyField, q)
    ensures forall j :: 0 <= j < k ==> !IsExact(rows[j], keyField, q)
  {
    FirstIndex((r: Row) => IsExact(r, keyField, q), rows)
  }

  /** `rows.filter(...)` on substring matches: the matching rows, each as
      often as in `rows`, in their original order. */
  function FilterContaining(rows: seq<Row>, keyField: string, q: string): (r: seq<Row>)
    ensures forall x :: multiset(r)[x] == if Contains(x, keyField, q) then multiset(rows)[x] else 0
    ensures SubsequenceOf(r, rows)
  {
    Filter((r: Row) => Contains(r, keyField, q), rows)
  }

  /** What a search leaves behind. */
  datatype SearchOutcome =
    | NoKeyColumn                                // no key column chosen: nothing changes
    | ExactMatch(selected: Row, rows: seq<Row>)  // the match is selected and moved to the front
    | Filtered(rows: seq<Row>, noMatches: bool)  // substring hits, or every row when there are none

  /** `doSearch` on the query typed by the user. */
  function Search(rows: seq<Row>, keyField: string, input: string): (o: SearchOutcome)
    ensures o.NoKeyColumn? <==> keyField == ""
    ensures o.ExactMatch? <==> keyField != "" && FirstExact(rows, keyField, Trim(input)) < |rows|
    ensures o.ExactMatch? ==>
      var k := FirstExact(rows, keyField, Trim(input));
      && k < |rows| && o.selected == rows[k]
      && o.rows == [rows[k]] + rows[..k] + rows[k + 1..]
    ensures o.Filtered? ==>
      var hits := FilterContaining(rows, keyField, Trim(input));
      && (o.noMatches <==> hits == [])
      && o.rows == (if hits == [] then rows else hits)
  {
    var q := Trim(input);
    if keyField == "" then NoKeyColumn
    else
      var k := FirstExact(rows, keyField, q);
      if k < |rows| then
        ExactMatch(rows[k], [rows[k]] + rows[..k] + rows[k + 1..])
      else
        var hits := FilterContaining(rows, keyField, q);
        Filtered(if hits == [] then rows else hits, hits == [])
  }

  /** A row is selected exactly when some row's key equals the trimmed
      query after normalising both. */
  lemma SearchSelectsExactly(rows: seq<Row>, keyField: string, input: string)
    requires keyField != ""
    ensures Search(rows, keyField, input).ExactMatch?
        <==> exists j :: 0 <= j < |rows| && IsExact(rows[j], keyField, Trim(input))
  {
    var q := Trim(input);
    var k := FirstExact(rows, keyField, q);
    if exists j :: 0 <= j < |rows| && IsExact(rows[j], keyField, q) {
      var j :| 0 <= j < |rows| && IsExact(rows[j], keyField, q);
      assert k <= j;
    }
  }

  /** A search never invents or duplicates a row: an exact match only
      reorders the rows, and a filter keeps at most the rows it was given. */
  lemma SearchKeepsRows(rows: seq<Row>, keyField: string, input: string)
    ensures var o := Search(rows, keyField, input);
      && (o.ExactMatch? ==> multiset(o.rows) == multiset(rows))
      && (o.Filtered? ==> multiset(o.rows) <= multiset(rows))
  {
    var o := Search(rows, keyField, input);
    if o.ExactMatch? {
      MoveToFrontPermutes(rows, FirstExact(rows, keyField, Trim(input)));
    } else if o.Filtered? {
      var hits := FilterContaining(rows, keyField, Trim(input));
      SubsequenceMultiset(hits, rows);
    }
  }
}
