/** Normalising untrusted mapping arrays into well-formed entries: the
    stored/configured mapping (`sanitizeMapping`) and an imported file
    (the sanitiser inside `importMapping`). Both read a value that
    `JSON.parse` produced. */
module Sanitize {
  import opened Wrappers
  import opened Seqs
  import opened Mapping
  import opened Transforms

  /** A value `JSON.parse` can produce; numbers are restricted to integers. */
  datatype Json =
    | Null
    | Bool(b: bool)
    | Num(n: int)
    | Str(s: string)
    | Arr(items: seq<Json>)
    | Obj(fields: map<string, Json>)

  /** Why loading a mapping array fails: a non-array import (`'JSON must be
      an array'`), a `null` element, whose properties cannot be read, or a
      value `String` cannot convert (see `Convertible`). */
  datatype LoadError = NotAnArray | NullEntry | NotConvertible

  /** `m[key]` for one of the keys `source`, `target`, `required` and
      `transform`, which no prototype defines: an object's own field, and
      `undefined` (None) for every other value. Callers rule out `null`. */
  function Prop(m: Json, key: string): Option<Json> {
    if m.Obj? && key in m.fields then Some(m.fields[key]) else None
  }

  /** JavaScript truthiness of a property value; `undefined` is falsy. */
  predicate Truthy(v: Option<Json>) {
    match v
    case None => false
    case Some(Null) => false
    case Some(Bool(b)) => b
    case Some(Num(n)) => n != 0
    case Some(Str(s)) => s != ""
    case Some(Arr(_)) => true
    case Some(Obj(_)) => true
  }

  function DigitChar(d: nat): char
    requires d < 10
  {
    "0123456789"[d]
  }

  function NatText(n: nat): string
    decreases n
  {
    if n < 10 then [DigitChar(n)] else NatText(n / 10) + [DigitChar(n % 10)]
  }

  function Join(parts: seq<string>, sep: string): string
    decreases |parts|
  {
    if |parts| == 0 then ""
    else if |parts| == 1 then parts[0]
    else parts[0] + sep + Join(parts[1..], sep)
  }

  /** `String(v)` succeeds: an object converts through its `toString`, and
      one that `JSON.parse` produced with an own `toString` key holds no
      function there, so the conversion throws; an array converts each
      element through `join`. */
  predicate Convertible(v: Json)
    decreases v
  {
    match v
    case Obj(fields) => "toString" !in fields
    case Arr(items) => forall i :: 0 <= i < |items| ==> Convertible(items[i])
    case _ => true
  }

  /** `String(v)`; an array joins its elements with `,`, a `null` element
      contributing the empty string. */
  function ToText(v: Json): string
    requires Convertible(v)
    decreases v
  {
    match v
    case Null => "null"
    case Bool(b) => if b then "true" else "false"
    case Num(n) => if n < 0 then "-" + NatText(-n) else NatText(n)
    case Str(s) => s
    case Arr(items) =>
      Join(seq(|items|, i requires 0 <= i < |items| => if items[i].Null? then "" else ToText(items[i])), ",")
    case Obj(_) => "[object Object]"
  }

  /** `String(v || '')` throws: the value is truthy and not convertible. */
  predicate TextFails(v: Option<Json>) {
    Truthy(v) && !Convertible(v.value)
  }

  /** `String(v || '')`. */
  function TextOr(v: Option<Json>): string
    requires !TextFails(v)
  {
    if Truthy(v) then ToText(v.value) else ""
  }

  /** Where an entry's source comes from: the stored mapping keeps a source
      only if it names a loaded header and otherwise substitutes the first
      header (`''` when there is none); an import takes any text. */
  datatype SourcePolicy = KnownHeaders(headers: seq<string>) | AnySource

  function EntrySource(p: SourcePolicy, v: Option<Json>): (src: string)
    requires p.AnySource? ==> !TextFails(v)
    ensures p.KnownHeaders? && src != "" ==> src in p.headers
    ensures p.KnownHeaders? && v.Some? && v.value.Str? && v.value.s in p.headers ==> src == v.value.s
    ensures p.KnownHeaders? && !(v.Some? && v.value.Str? && v.value.s in p.headers) ==>
      src == (if |p.headers| > 0 then p.headers[0] else "")
    ensures p.AnySource? && v.Some? && v.value.Str? ==> src == v.value.s
    ensures p.AnySource? && !Truthy(v) ==> src == ""
  {
    match p
    case KnownHeaders(hs) =>
      if v.Some? && v.value.Str? && v.value.s in hs then v.value.s
      else if |hs| > 0 then hs[0] else ""
    case AnySource => TextOr(v)
  }

  /** The `map` callback throws on `m`: reading a property of `null`, or
      `String` on a source (imports only; the stored mapping only compares
      it with the headers) or a target it cannot convert. */
  predicate Throws(p: SourcePolicy, m: Json) {
    || m == Null
    || (p.AnySource? && TextFails(Prop(m, "source")))
    || TextFails(Prop(m, "target"))
  }

  function ErrorOf(m: Json): LoadError {
    if m == Null then NullEntry else NotConvertible
  }

  /** Element `k` is the first one the callback throws on, which ends the
      `map`. */
  predicate FirstThrow(p: SourcePolicy, items: seq<Json>, k: nat) {
    k < |items| && Throws(p, items[k]) && forall j :: 0 <= j < k ==> !Throws(p, items[j])
  }

  /** The `map` callback: a well-typed entry from any value it does not
      throw on. */
  function NormalizeEntry(p: SourcePolicy, m: Json): (e: MapEntry)
    requires !Throws(p, m)
    ensures e.transform in TransformNames
    ensures var t := Prop(m, "transform");
      t.Some? && t.value.Str? && t.value.s in TransformNames ==> e.transform == t.value.s
    ensures var t := Prop(m, "transform");
      !(t.Some? && t.value.Str? && t.value.s in TransformNames) ==> e.transform == "none"
    ensures var v := Prop(m, "target"); v.Some? && v.value.Str? ==> e.target == v.value.s
    ensures !Truthy(Prop(m, "target")) ==> e.target == ""
    ensures e.required <==> Truthy(Prop(m, "required"))
    ensures e.source == EntrySource(p, Prop(m, "source"))
    ensures p.KnownHeaders? && e.source != "" ==> e.source in p.headers
  {
    var t := Prop(m, "transform");
    MapEntry(
      EntrySource(p, Prop(m, "source")),
      TextOr(Prop(m, "target")),
      Truthy(Prop(m, "required")),
      if t.Some? && t.value.Str? && t.value.s in TransformNames then t.value.s else "none")
  }

  function NormalizeAllEntries(p: SourcePolicy, items: seq<Json>): seq<MapEntry>
    requires forall i :: 0 <= i < |items| ==> !Throws(p, items[i])
  {
    seq(|items|, i requires 0 <= i < |items| => NormalizeEntry(p, items[i]))
  }

  /** A mapping entry every sanitiser keeps unchanged. */
  predicate WellFormed(e: MapEntry) {
    Active(e) && e.transform in TransformNames
  }

  /** `items.map(normalise).filter(m => m.source && m.target)`: the `map`
      stops with the error of the first element it throws on; otherwise
      the entries with a source and a target are kept, each copy of them,
      in order. */
  function SanitizeItems(p: SourcePolicy, items: seq<Json>): (r: Result<seq<MapEntry>, LoadError>)
    ensures r.Err? <==> exists i :: 0 <= i < |items| && Throws(p, items[i])
    ensures r.Err? ==> exists k: nat :: FirstThrow(p, items, k) && r.error == ErrorOf(items[k])
    ensures r.Ok? ==> forall e :: e in r.value ==> WellFormed(e) && (p.KnownHeaders? ==> e.source in p.headers)
    ensures r.Ok? ==> SubsequenceOf(r.value, NormalizeAllEntries(p, items))
    ensures r.Ok? ==> forall x :: multiset(r.value)[x] == if Active(x) then multiset(NormalizeAllEntries(p, items))[x] else 0
    ensures r.Ok? ==> |r.value| <= |items|
  {
    var k := FirstIndex((m: Json) => Throws(p, m), items);
    if k < |items| then
      assert FirstThrow(p, items, k);
      Err(ErrorOf(items[k]))
    else
      var all := NormalizeAllEntries(p, items);
      var kept := Filter(Active, all);
      KeptEntries(p, items);
      SubsequenceLength(kept, all);
      Ok(kept)
  }

  /** What the filter keeps is well formed. */
  lemma KeptEntries(p: SourcePolicy, items: seq<Json>)
    requires forall i :: 0 <= i < |items| ==> !Throws(p, items[i])
    ensures forall e :: e in Filter(Active, NormalizeAllEntries(p, items)) ==>
      WellFormed(e) && (p.KnownHeaders? ==> e.source in p.headers)
  {
    var all := NormalizeAllEntries(p, items);
    var kept := Filter(Active, all);
    forall e | e in kept ensures WellFormed(e) && (p.KnownHeaders? ==> e.source in p.headers) {
      assert multiset(kept)[e] > 0;
      assert e in all;
    }
  }

  /** `sanitizeMapping(arr)` against the loaded headers; a non-array counts
      as an empty one. */
  function SanitizeMapping(headers: seq<string>, arr: Json): (r: Result<seq<MapEntry>, LoadError>)
    ensures r.Err? <==> arr.Arr? && exists m :: m in arr.items && (m == Null || TextFails(Prop(m, "target")))
    ensures r.Err? ==> r.error != NotAnArray
    ensures !arr.Arr? ==> r == Ok([])
    ensures r.Ok? ==> forall e :: e in r.value ==> WellFormed(e) && e.source in headers
  {
    SanitizeItems(KnownHeaders(headers), if arr.Arr? then arr.items else [])
  }

  /** The sanitiser of `importMapping`. */
  function ImportMapping(arr: Json): (r: Result<seq<MapEntry>, LoadError>)
    ensures r == Err(NotAnArray) <==> !arr.Arr?
    ensures r.Err? && r.error != NotAnArray <==>
      arr.Arr? && exists m :: m in arr.items && (m == Null || TextFails(Prop(m, "source")) || TextFails(Prop(m, "target")))
    ensures r.Ok? ==> forall e :: e in r.value ==> WellFormed(e)
  {
    if !arr.Arr? then Err(NotAnArray) else SanitizeItems(AnySource, arr.items)
  }

  /** What the stored mapping sanitiser returns already names loaded headers,
      so the render step after a load rewrites nothing. */
  lemma SanitizedRendersUnchanged(headers: seq<string>, arr: Json)
    ensures var r := SanitizeMapping(headers, arr);
      r.Ok? ==> RebindSources(headers, r.value) == r.value
  {
    var r := SanitizeMapping(headers, arr);
    if r.Ok? {
      RebindKnownSources(headers, r.value);
    }
  }

  /** An object with its own `toString` key cannot be converted, so an
      import whose target is one fails, although its source is fine. */
  lemma ImportRejectsToStringKey()
    ensures var m := Obj(map["source" := Str("a"), "target" := Obj(map["toString" := Num(1)])]);
      ImportMapping(Arr([m])) == Err(NotConvertible)
  {
    var m := Obj(map["source" := Str("a"), "target" := Obj(map["toString" := Num(1)])]);
    assert Prop(m, "target") == Some(Obj(map["toString" := Num(1)]));
    assert Throws(AnySource, m);
    assert FirstThrow(AnySource, [m], 0);
  }

  /** The value `exportMapping` writes (`JSON.stringify(mapping)`), as
      `JSON.parse` reads it back. */
  function EntryJson(e: MapEntry): Json {
    Obj(map["source" := Str(e.source), "target" := Str(e.target),
            "required" := Bool(e.required), "transform" := Str(e.transform)])
  }

  function Export(es: seq<MapEntry>): Json {
    Arr(seq(|es|, i requires 0 <= i < |es| => EntryJson(es[i])))
  }

  lemma NormalizeExported(p: SourcePolicy, e: MapEntry)
    requires WellFormed(e)
    requires p.KnownHeaders? ==> e.source in p.headers
    ensures NormalizeEntry(p, EntryJson(e)) == e
  {
    var m := EntryJson(e);
    assert Prop(m, "source") == Some(Str(e.source));
    assert Prop(m, "target") == Some(Str(e.target));
    assert Prop(m, "required") == Some(Bool(e.required));
    assert Prop(m, "transform") == Some(Str(e.transform));
  }

  lemma SanitizeExported(p: SourcePolicy, es: seq<MapEntry>)
    requires forall e :: e in es ==> WellFormed(e) && (p.KnownHeaders? ==> e.source in p.headers)
    ensures SanitizeItems(p, Export(es).items) == Ok(es)
  {
    var items := Export(es).items;
    assert Null !in items by {
      forall i | 0 <= i < |items| ensures items[i] != Null {
        assert items[i] == EntryJson(es[i]);
      }
    }
    var all := NormalizeAllEntries(p, items);
    forall i | 0 <= i < |es| ensures all[i] == es[i] {
      assert es[i] in es;
      NormalizeExported(p, es[i]);
    }
    assert all == es;
    FilterAll(Active, es);
  }

  /** Exporting a well-formed mapping and importing the file gives the same
      mapping back. */
  lemma ImportExportRoundTrip(es: seq<MapEntry>)
    requires forall e :: e in es ==> WellFormed(e)
    ensures ImportMapping(Export(es)) == Ok(es)
  {
    SanitizeExported(AnySource, es);
  }

  /** Storing a well-formed mapping whose sources are all loaded headers and
      sanitising it on reload gives the same mapping back. */
  lemma SanitizeExportRoundTrip(headers: seq<string>, es: seq<MapEntry>)
    requires forall e :: e in es ==> WellFormed(e) && e.source in headers
    ensures SanitizeMapping(headers, Export(es)) == Ok(es)
  {
    SanitizeExported(KnownHeaders(headers), es);
  }

  /** Sanitising is idempotent: what it returns passes through it again
      unchanged. */
  lemma SanitizeIdempotent(headers: seq<string>, arr: Json)
    ensures var r := SanitizeMapping(headers, arr);
      r.Ok? ==> SanitizeMapping(headers, Export(r.value)) == r
  {
    var r := SanitizeMapping(headers, arr);
    if r.Ok? {
      SanitizeExportRoundTrip(headers, r.value);
    }
  }

  /** Importing is idempotent in the same sense. */
  lemma ImportIdempotent(arr: Json)
    ensures var r := ImportMapping(arr);
      r.Ok? ==> ImportMapping(Export(r.value)) == r
  {
    var r := ImportMapping(arr);
    if r.Ok? {
      ImportExportRoundTrip(r.value);
    }
  }
}
