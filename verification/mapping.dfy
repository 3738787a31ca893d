/** The mapping engine: entries `{source, target, required, transform}`, the
    mapped object built from a selected row (`buildMapped`) and the report of
    required entries without data (`requiredMissing`). */
module Mapping {
  import opened Text
  import opened Csv
  import opened Transforms

  /** One line of the mapping table: copy column `source` into `target`,
      passed through `transform`; `required` entries must find data. */
  datatype MapEntry = MapEntry(source: string, target: string, required: bool, transform: string)

  /** `buildMapped` skips entries whose source or target is empty. */
  predicate Active(e: MapEntry) {
    e.source != "" && e.target != ""
  }

  /** The value an entry produces for a row: the cell (`''` when the column
      is missing) passed through the entry's transform. */
  function EntryValue(row: Row, e: MapEntry): string {
    ApplyTransform(Cell(row, e.source), e.transform)
  }

  /** No later active entry writes the same target as entry `i`. */
  predicate LastForTarget(es: seq<MapEntry>, i: nat)
    requires i < |es|
  {
    forall j :: i < j < |es| && Active(es[j]) ==> es[j].target != es[i].target
  }

  /** The targets of the active entries. */
  function ActiveTargets(es: seq<MapEntry>): set<string> {
    set e | e in es && Active(e) :: e.target
  }

  lemma ActiveTargetsSnoc(es: seq<MapEntry>, e: MapEntry)
    ensures ActiveTargets(es + [e]) == ActiveTargets(es) + (if Active(e) then {e.target} else {})
  {
    assert forall x :: x in es + [e] <==> x in es || x == e;
  }

  /** Every last entry for its target finds its own value in `out`. */
  predicate LastValuesWin(row: Row, es: seq<MapEntry>, out: map<string, string>) {
    forall i :: 0 <= i < |es| && Active(es[i]) && LastForTarget(es, i) ==>
      es[i].target in out && out[es[i].target] == EntryValue(row, es[i])
  }

  /** `buildMapped`: one key per target of an active entry; when targets
      repeat, the value of the last such entry wins. */
  function BuildMapped(row: Row, es: seq<MapEntry>): (out: map<string, string>)
    ensures out.Keys == ActiveTargets(es)
    ensures LastValuesWin(row, es, out)
    decreases |es|
  {
    if |es| == 0 then map[]
    else
      var n := |es| - 1;
      var prev := BuildMapped(row, es[..n]);
      var e := es[n];
      var out := if Active(e) then prev[e.target := EntryValue(row, e)] else prev;
      BuildStep(row, es, prev, out);
      out
  }

  /** The inductive step of `BuildMapped`: writing the last entry over the
      map built from the others. */
  lemma BuildStep(row: Row, es: seq<MapEntry>, prev: map<string, string>, out: map<string, string>)
    requires |es| > 0
    requires prev.Keys == ActiveTargets(es[..|es| - 1])
    requires LastValuesWin(row, es[..|es| - 1], prev)
    requires out == if Active(es[|es| - 1]) then prev[es[|es| - 1].target := EntryValue(row, es[|es| - 1])] else prev
    ensures out.Keys == ActiveTargets(es)
    ensures LastValuesWin(row, es, out)
  {
    var n := |es| - 1;
    var pre := es[..n];
    ActiveTargetsSnoc(pre, es[n]);
    assert pre + [es[n]] == es;
    LastValuesStep(row, es, prev, out);
  }

  lemma LastValuesStep(row: Row, es: seq<MapEntry>, prev: map<string, string>, out: map<string, string>)
    requires |es| > 0
    requires LastValuesWin(row, es[..|es| - 1], prev)
    requires out == if Active(es[|es| - 1]) then prev[es[|es| - 1].target := EntryValue(row, es[|es| - 1])] else prev
    ensures LastValuesWin(row, es, out)
  {
    var n := |es| - 1;
    var pre := es[..n];
    forall i | 0 <= i < |es| && Active(es[i]) && LastForTarget(es, i)
      ensures es[i].target in out && out[es[i].target] == EntryValue(row, es[i])
    {
      if i < n {
        assert pre[i] == es[i];
        assert forall j :: i < j < n ==> pre[j] == es[j];
        assert LastForTarget(pre, i);
      }
    }
  }

  /** Appending an entry writes its target, overwriting any earlier value. */
  lemma BuildMappedSnoc(row: Row, es: seq<MapEntry>, e: MapEntry)
    ensures BuildMapped(row, es + [e])
         == if Active(e) then BuildMapped(row, es)[e.target := EntryValue(row, e)] else BuildMapped(row, es)
  {
    assert (es + [e])[..|es|] == es;
  }

  /** The source `renderMapping` falls back to: the first loaded header, or
      `''` when there is none. */
  function DefaultSource(headers: seq<string>): string {
    if |headers| > 0 then headers[0] else ""
  }

  /** The rewrite `renderMapping` applies to the mapping on every render
      (after a load, an import and an auto-map): a source that is not a
      loaded header becomes the default source; nothing else changes. */
  function RebindSources(headers: seq<string>, es: seq<MapEntry>): (r: seq<MapEntry>)
    ensures |r| == |es|
    ensures forall i :: 0 <= i < |r| ==>
      && r[i].target == es[i].target && r[i].required == es[i].required && r[i].transform == es[i].transform
      && (es[i].source in headers ==> r[i].source == es[i].source)
      && (es[i].source !in headers ==> r[i].source == DefaultSource(headers))
    ensures forall i :: 0 <= i < |r| ==> r[i].source in headers || (headers == [] && r[i].source == "")
  {
    seq(|es|, i requires 0 <= i < |es| =>
      if es[i].source in headers then es[i] else es[i].(source := DefaultSource(headers)))
  }

  /** A mapping whose sources are all loaded headers renders unchanged. */
  lemma RebindKnownSources(headers: seq<string>, es: seq<MapEntry>)
    requires forall e :: e in es ==> e.source in headers
    ensures RebindSources(headers, es) == es
  {
    var r := RebindSources(headers, es);
    forall i | 0 <= i < |es| ensures r[i] == es[i] {
      assert es[i] in es;
    }
  }

  /** Rendering twice rewrites nothing more. */
  lemma RebindIdempotent(headers: seq<string>, es: seq<MapEntry>)
    ensures RebindSources(headers, RebindSources(headers, es)) == RebindSources(headers, es)
  {
    var r := RebindSources(headers, es);
    var rr := RebindSources(headers, r);
    forall i | 0 <= i < |r| ensures rr[i] == r[i] {
      if headers == [] {
        assert r[i].source == "" == DefaultSource(headers);
      }
    }
  }

  /** A cell that is missing, empty or white space only. */
  predicate IsBlank(row: Row, key: string) {
    key !in row || Trim(row[key]) == ""
  }

  predicate MissingRequired(row: Row, e: MapEntry) {
    e.required && IsBlank(row, e.source)
  }

  /** How a missing entry is reported: its target, or its source when the
      target is empty. */
  function Label(e: MapEntry): string {
    if e.target != "" then e.target else e.source
  }

  /** `requiredMissing`: the labels of the required entries whose cell is
      blank, in mapping order. */
  function RequiredMissing(row: Row, es: seq<MapEntry>): (miss: seq<string>)
    ensures |miss| <= |es|
    ensures forall e :: e in es && MissingRequired(row, e) ==> Label(e) in miss
    ensures forall x :: x in miss ==> exists e :: e in es && MissingRequired(row, e) && Label(e) == x
    decreases |es|
  {
    if |es| == 0 then []
    else
      var rest := RequiredMissing(row, es[1..]);
      assert forall e :: e in es <==> e == es[0] || e in es[1..];
      (if MissingRequired(row, es[0]) then [Label(es[0])] else []) + rest
  }

  /** The report keeps mapping order: it is computed entry by entry. */
  lemma {:induction false} RequiredMissingAppend(row: Row, a: seq<MapEntry>, b: seq<MapEntry>)
    ensures RequiredMissing(row, a + b) == RequiredMissing(row, a) + RequiredMissing(row, b)
    decreases |a|
  {
    if |a| == 0 {
      assert a + b == b;
    } else {
      assert (a + b)[1..] == a[1..] + b;
      RequiredMissingAppend(row, a[1..], b);
    }
  }

  /** Nothing is reported exactly when every required entry finds a
      non-blank cell; entries that are not required never matter. */
  lemma RequiredMissingEmpty(row: Row, es: seq<MapEntry>)
    ensures RequiredMissing(row, es) == [] <==> forall e :: e in es && e.required ==> !IsBlank(row, e.source)
  {
    var miss := RequiredMissing(row, es);
    if miss != [] {
      assert miss[0] in miss;
    }
  }
}
