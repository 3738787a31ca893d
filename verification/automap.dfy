/** `autoMap`: guess a target for each header from a fixed table and append
    the guesses whose target the mapping does not use yet. */
module AutoMap {
  import opened Wrappers
  import opened Text
  import opened Seqs
  import opened Csv
  import opened Mapping

  /** The guess table, tried in order; patterns are case-insensitive and
      the first one that matches decides:
      `^email`, `^full\s*name|^name$`, `^first`, `^last`, `phone|mobile|cell`,
      `company|employer`, `address`. */
  function GuessTarget(header: string): (g: Option<string>)
    ensures g.Some? ==> g.value in GuessTargets
  {
    var h := Lower(header);
    if StartsWith(h, "email") then Some("Client Email")
    else if (StartsWith(h, "full") && StartsWith(h[4 + LeadingSpace(h[4..])..], "name")) || h == "name" then Some("Client Name")
    else if StartsWith(h, "first") then Some("First Name")
    else if StartsWith(h, "last") then Some("Last Name")
    else if Includes(h, "phone") || Includes(h, "mobile") || Includes(h, "cell") then Some("Phone")
    else if Includes(h, "company") || Includes(h, "employer") then Some("Company")
    else if Includes(h, "address") then Some("Address")
    else None
  }

  const GuessTargets: set<string> :=
    {"Client Email", "Client Name", "First Name", "Last Name", "Phone", "Company", "Address"}

  function Sources(es: seq<MapEntry>): seq<string> {
    seq(|es|, i requires 0 <= i < |es| => es[i].source)
  }

  lemma SourcesCons(e: MapEntry, es: seq<MapEntry>)
    ensures Sources([e] + es) == [e.source] + Sources(es)
  {
    assert forall i :: 0 < i <= |es| ==> ([e] + es)[i] == es[i - 1];
  }

  /** The entry `autoMap` proposes for a header it can guess. */
  function Proposal(h: string, target: string): MapEntry {
    MapEntry(h, target, false, "none")
  }

  /** `newMaps`: one proposal per guessable header, in header order. */
  function Proposals(headers: seq<string>): (ps: seq<MapEntry>)
    ensures forall p :: p in ps ==> p.source in headers && GuessTarget(p.source) == Some(p.target) && p == Proposal(p.source, p.target)
    ensures forall h :: h in headers && GuessTarget(h).Some? ==> Proposal(h, GuessTarget(h).value) in ps
    ensures Sources(ps) == Filter(Guessable, headers)
    decreases |headers|
  {
    if |headers| == 0 then []
    else
      var rest := Proposals(headers[1..]);
      var g := GuessTarget(headers[0]);
      var e := Proposal(headers[0], if g.Some? then g.value else "");
      var ps := if g.Some? then [e] + rest else rest;
      assert headers == [headers[0]] + headers[1..];
      SourcesCons(e, rest);
      FilterCons(Guessable, headers[0], headers[1..]);
      ps
  }

  predicate Guessable(h: string) {
    GuessTarget(h).Some?
  }

  /** The targets a mapping already uses (`existingTargets`). */
  function Targets(es: seq<MapEntry>): set<string> {
    set e | e in es :: e.target
  }

  function Unused(taken: set<string>): MapEntry -> bool {
    (p: MapEntry) => p.target !in taken
  }

  /** The proposals whose target is not in `taken`, in order. The set is
      computed once before the loop, so two new proposals with the same
      target are both kept. */
  function Fresh(taken: set<string>, ps: seq<MapEntry>): (r: seq<MapEntry>)
    ensures forall x :: x in r ==> x in ps && x.target !in taken
    ensures forall p :: p in ps && p.target !in taken ==> p in r
    ensures forall x :: multiset(r)[x] == if x.target !in taken then multiset(ps)[x] else 0
    ensures SubsequenceOf(r, ps)
  {
    var r := Filter(Unused(taken), ps);
    assert forall x :: x in r <==> multiset(r)[x] > 0;
    assert forall x :: x in ps <==> multiset(ps)[x] > 0;
    r
  }

  lemma FreshAllTaken(taken: set<string>, ps: seq<MapEntry>)
    requires forall p :: p in ps ==> p.target in taken
    ensures Fresh(taken, ps) == []
  {
  }

  /** The merge step: the existing mapping stays as it is, and the proposals
      with a target it does not use are appended in order. */
  function MergeGuesses(existing: seq<MapEntry>, ps: seq<MapEntry>): (merged: seq<MapEntry>)
    ensures |existing| <= |merged| && merged[..|existing|] == existing
    ensures forall i :: |existing| <= i < |merged| ==> merged[i].target !in Targets(existing)
    ensures SubsequenceOf(merged[|existing|..], ps)
    ensures forall p :: p in ps && p.target !in Targets(existing) ==> p in merged[|existing|..]
    ensures forall x :: multiset(merged[|existing|..])[x] == (if x.target !in Targets(existing) then multiset(ps)[x] else 0)
  {
    var added := Fresh(Targets(existing), ps);
    var merged := existing + added;
    assert merged[|existing|..] == added;
    assert forall i :: |existing| <= i < |merged| ==> merged[i] in added by {
      forall i | |existing| <= i < |merged| ensures merged[i] in added {
        assert merged[i] == added[i - |existing|];
      }
    }
    merged
  }

  /** What pressing the auto-map button does. */
  datatype AutoMapOutcome =
    | NoHeaders                     // nothing loaded: the mapping is left alone
    | NoGuesses                     // "No obvious matches": the mapping is left alone
    | Merged(mapping: seq<MapEntry>)

  function AutoMap(headers: seq<string>, mapping: seq<MapEntry>): (o: AutoMapOutcome)
    ensures o.NoHeaders? <==> headers == []
    ensures o.NoGuesses? <==> headers != [] && forall h :: h in headers ==> GuessTarget(h).None?
    ensures o.Merged? ==> o.mapping == MergeGuesses(mapping, Proposals(headers))
  {
    if |headers| == 0 then NoHeaders
    else
      var ps := Proposals(headers);
      if ps == [] then NoGuesses
      else
        assert ps[0] in ps;
        Merged(MergeGuesses(mapping, ps))
  }

  /** Appending entries whose targets the mapping does not use leaves every
      value the mapping already produced unchanged. */
  lemma {:induction false} BuildMappedAppendFresh(row: Row, a: seq<MapEntry>, b: seq<MapEntry>)
    requires forall e :: e in b ==> e.target !in Targets(a)
    ensures forall t :: t in BuildMapped(row, a) ==> t in BuildMapped(row, a + b) && BuildMapped(row, a + b)[t] == BuildMapped(row, a)[t]
    decreases |b|
  {
    if |b| == 0 {
      assert a + b == a;
    } else {
      var n := |b| - 1;
      var c := a + b;
      var last := b[n];
      assert c == (a + b[..n]) + [last];
      assert forall e :: e in b[..n] ==> e in b;
      BuildMappedAppendFresh(row, a, b[..n]);
      BuildMappedSnoc(row, a + b[..n], last);
      forall t | t in BuildMapped(row, a)
        ensures t in BuildMapped(row, c) && BuildMapped(row, c)[t] == BuildMapped(row, a)[t]
      {
        var e :| e in a && Active(e) && e.target == t;
        assert t in Targets(a);
        assert t != last.target;
      }
    }
  }

  /** Auto-mapping never changes a value the existing mapping produces for
      any row: manual entries are never clobbered. */
  lemma AutoMapKeepsMappedValues(row: Row, headers: seq<string>, mapping: seq<MapEntry>)
    ensures var o := AutoMap(headers, mapping);
      o.Merged? ==> forall t :: t in BuildMapped(row, mapping) ==>
        t in BuildMapped(row, o.mapping) && BuildMapped(row, o.mapping)[t] == BuildMapped(row, mapping)[t]
  {
    var o := AutoMap(headers, mapping);
    if !o.Merged? { return; }
    var merged := o.mapping;
    var added := merged[|mapping|..];
    assert merged == mapping + added;
    forall e | e in added ensures e.target !in Targets(mapping) {
      var i :| 0 <= i < |added| && added[i] == e;
      assert merged[|mapping| + i] == e;
    }
    BuildMappedAppendFresh(row, mapping, added);
  }

  /** After the merge every proposal's target is in use. */
  lemma MergeCoversTargets(existing: seq<MapEntry>, ps: seq<MapEntry>)
    ensures forall p :: p in ps ==> p.target in Targets(MergeGuesses(existing, ps))
  {
    var merged := MergeGuesses(existing, ps);
    forall p | p in ps ensures p.target in Targets(merged) {
      if p.target in Targets(existing) {
        var e :| e in existing && e.target == p.target;
        var i :| 0 <= i < |existing| && existing[i] == e;
        assert merged[i] == e;
      } else {
        assert p in merged[|existing|..];
        var i :| 0 <= i < |merged| - |existing| && merged[|existing|..][i] == p;
        assert merged[|existing| + i] == p;
      }
    }
  }

  /** Merging the same proposals a second time appends nothing. */
  lemma MergeAgain(existing: seq<MapEntry>, ps: seq<MapEntry>)
    ensures var merged := MergeGuesses(existing, ps);
      MergeGuesses(merged, ps) == merged
  {
    var merged := MergeGuesses(existing, ps);
    MergeCoversTargets(existing, ps);
    FreshAllTaken(Targets(merged), ps);
    assert merged + [] == merged;
  }

  /** Running auto-map again on its own result adds nothing. */
  lemma AutoMapIdempotent(headers: seq<string>, mapping: seq<MapEntry>)
    ensures var o := AutoMap(headers, mapping);
      o.Merged? ==> AutoMap(headers, o.mapping) == o
  {
    if AutoMap(headers, mapping).Merged? {
      MergeAgain(mapping, Proposals(headers));
    }
  }

  /** The merge does not stop two new guesses from sharing a target: a
      "Phone" and a "Mobile" column both become target "Phone". */
  lemma AutoMapMayRepeatTargets()
    ensures AutoMap(["Phone", "Mobile"], [])
         == Merged([Proposal("Phone", "Phone"), Proposal("Mobile", "Phone")])
  {
    var ps := [Proposal("Phone", "Phone"), Proposal("Mobile", "Phone")];
    ProposePhoneMobile();
    FilterAll(Unused({}), ps);
    assert Targets([]) == {};
  }

  lemma ProposePhoneMobile()
    ensures Proposals(["Phone", "Mobile"]) == [Proposal("Phone", "Phone"), Proposal("Mobile", "Phone")]
  {
    assert Proposals(["Mobile"]) == [Proposal("Mobile", "Phone")] by {
      GuessMobile();
      assert ["Mobile"][1..] == [];
    }
    assert ["Phone", "Mobile"][1..] == ["Mobile"];
    GuessPhone();
  }

  /** A header whose lowered form starts with none of the prefixes the
      table tests first is guessed by the substring patterns. */
  lemma GuessBySubstring(header: string)
    requires |header| > 0
    requires Lower(header)[0] !in {'e', 'f', 'l', 'n'}
    ensures GuessTarget(header) == (
      var h := Lower(header);
      if Includes(h, "phone") || Includes(h, "mobile") || Includes(h, "cell") then Some("Phone")
      else if Includes(h, "company") || Includes(h, "employer") then Some("Company")
      else if Includes(h, "address") then Some("Address")
      else None)
  {
    var h := Lower(header);
    assert !StartsWith(h, "email") by { assert |h| >= 5 ==> h[..5][0] == h[0]; }
    assert !StartsWith(h, "full") by { assert |h| >= 4 ==> h[..4][0] == h[0]; }
    assert !StartsWith(h, "first") by { assert |h| >= 5 ==> h[..5][0] == h[0]; }
    assert !StartsWith(h, "last") by { assert |h| >= 4 ==> h[..4][0] == h[0]; }
    assert h != "name";
  }

  lemma GuessPhone()
    ensures GuessTarget("Phone") == Some("Phone")
  {
    var h := Lower("Phone");
    assert h == "phone";
    GuessBySubstring("Phone");
    assert OccursAt(h, "phone", 0);
  }

  lemma GuessMobile()
    ensures GuessTarget("Mobile") == Some("Phone")
  {
    var h := Lower("Mobile");
    assert h == "mobile";
    GuessBySubstring("Mobile");
    assert OccursAt(h, "mobile", 0);
  }
}
