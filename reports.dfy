/** The two aggregations over the demand records: the critical-products panel
    (`actualizarProductosCriticos`), which groups the records with unmet demand by product and
    orders the groups by total unmet demand, and the per-centre summary of the spreadsheet export
    (`generarResumenPorCentro`). Both accumulate into an insertion-ordered dictionary; each is
    proved equal, key by key, to a reference definition over the filtered records. */
module Reports {
  import opened Collections
  import opened Records

  /** One entry of the critical-products map: `{producto, demanda_total, registros}`. */
  datatype ProductDemand = ProductDemand(product: string, total: nat, count: nat)

  function ProductKey(g: ProductDemand): string
  {
    g.product
  }

  /** `producto.demanda_total += d; producto.registros += 1`. */
  function AddDemand(d: nat): ProductDemand -> ProductDemand
  {
    (g: ProductDemand) => g.(total := g.total + d, count := g.count + 1)
  }

  /** The map after the `forEach` over `records`: records with no unmet demand are skipped. */
  function Grouped(records: seq<Record>): seq<ProductDemand>
  {
    if records == [] then []
    else
      var groups, r := Grouped(records[..|records| - 1]), records[|records| - 1];
      if r.unmet > 0 then
        Upsert(groups, ProductKey, r.product, AddDemand(r.unmet), ProductDemand(r.product, r.unmet, 1))
      else groups
  }

  /** The grouping loop of `actualizarProductosCriticos`. */
  method GroupCritical(records: seq<Record>) returns (groups: seq<ProductDemand>)
    ensures groups == Grouped(records)
  {
    groups := [];
    for i := 0 to |records|
      invariant groups == Grouped(records[..i])
    {
      assert records[..i + 1][..i] == records[..i];
      var r := records[i];
      if r.unmet > 0 {
        var found := IndexOf(groups, ProductKey, r.product);
        if found.None? {
          groups := groups + [ProductDemand(r.product, 0, 0)];
        }
        var k := if found.Some? then found.value else |groups| - 1;
        groups := groups[k := groups[k].(total := groups[k].total + r.unmet, count := groups[k].count + 1)];
      }
    }
    assert records[..|records|] == records;
  }

  /** Reference: the records with unmet demand for product `p`. */
  function CriticalFor(p: string): Record -> bool
  {
    (r: Record) => r.product == p && r.unmet > 0
  }

  /** Reference: the unmet demand of product `p` summed over the records. */
  function TotalFor(records: seq<Record>, p: string): nat
  {
    if records == [] then 0
    else
      var r := records[|records| - 1];
      TotalFor(records[..|records| - 1], p) + (if r.product == p then r.unmet else 0)
  }

  /** Reference: how many records report unmet demand for product `p`. */
  function CountFor(records: seq<Record>, p: string): nat
  {
    Count(records, CriticalFor(p))
  }

  /** Reference: the entry the map should hold for product `p`. */
  function ExpectedGroup(records: seq<Record>, p: string): Option<ProductDemand>
  {
    if CountFor(records, p) == 0 then None
    else Some(ProductDemand(p, TotalFor(records, p), CountFor(records, p)))
  }

  /** The map's entry for `p` is `TotalFor`/`CountFor` when some record reports unmet demand
      for `p`, and there is none otherwise. */
  lemma {:induction false} GroupedFind(records: seq<Record>)
    ensures KeysDistinct(Grouped(records), ProductKey)
    ensures forall p :: Find(Grouped(records), ProductKey, p) == ExpectedGroup(records, p)
    decreases |records|
  {
    if records != [] {
      var init, r := records[..|records| - 1], records[|records| - 1];
      assert records == init + [r];
      GroupedFind(init);
      var before, after := Grouped(init), Grouped(records);
      if r.unmet > 0 {
        UpsertFind(before, ProductKey, r.product, AddDemand(r.unmet), ProductDemand(r.product, r.unmet, 1));
      } else {
        assert after == before;
      }
      forall p ensures Find(after, ProductKey, p) == ExpectedGroup(records, p) {
        GroupedStep(init, r, p, Find(before, ProductKey, p), Find(after, ProductKey, p));
      }
    }
  }

  /** One record more: the entry for `p` changes only when the record reports unmet demand for `p`. */
  lemma GroupedStep(init: seq<Record>, r: Record, p: string, before: Option<ProductDemand>, after: Option<ProductDemand>)
    requires before == ExpectedGroup(init, p)
    requires after == if r.unmet == 0 || p != r.product then before
      else if before.Some? then Some(AddDemand(r.unmet)(before.value))
      else Some(ProductDemand(r.product, r.unmet, 1))
    ensures after == ExpectedGroup(init + [r], p)
  {
    CountForSnoc(init, r, p);
    TotalForSnoc(init, r, p);
    if CountFor(init, p) == 0 {
      NoCriticalNoTotal(init, p);
    }
  }

  lemma CountForSnoc(init: seq<Record>, r: Record, p: string)
    ensures CountFor(init + [r], p) == CountFor(init, p) + (if r.product == p && r.unmet > 0 then 1 else 0)
  {
    assert (init + [r])[..|init|] == init;
  }

  lemma TotalForSnoc(init: seq<Record>, r: Record, p: string)
    ensures TotalFor(init + [r], p) == TotalFor(init, p) + (if r.product == p then r.unmet else 0)
  {
    assert (init + [r])[..|init|] == init;
  }

  lemma {:induction false} NoCriticalNoTotal(records: seq<Record>, p: string)
    requires CountFor(records, p) == 0
    ensures TotalFor(records, p) == 0
    decreases |records|
  {
    if records != [] {
      NoCriticalNoTotal(records[..|records| - 1], p);
    }
  }

  /** Some record reports unmet demand for product `p`. */
  predicate ReportsShortage(records: seq<Record>, p: string)
  {
    exists j :: 0 <= j < |records| && records[j].product == p && records[j].unmet > 0
  }

  predicate HasProduct(groups: seq<ProductDemand>, p: string)
  {
    exists i :: 0 <= i < |groups| && groups[i].product == p
  }

  /** `registros > 0` exactly when some record reports unmet demand for the product. */
  lemma CountForPositive(records: seq<Record>, p: string)
    ensures CountFor(records, p) > 0 <==> ReportsShortage(records, p)
  {
    FilterLength(records, CriticalFor(p));
    var f := Filter(records, CriticalFor(p));
    if f != [] {
      assert f[0] in f;
      var j :| 0 <= j < |records| && records[j] == f[0];
    }
    if ReportsShortage(records, p) {
      var j :| 0 <= j < |records| && records[j].product == p && records[j].unmet > 0;
      assert CriticalFor(p)(records[j]);
    }
  }

  /** What the panel lists: one entry per product with unmet demand (and no other), carrying
      that product's total unmet demand and the number of records reporting it. */
  lemma GroupedMeaning(records: seq<Record>)
    ensures KeysDistinct(Grouped(records), ProductKey)
    ensures forall i :: 0 <= i < |Grouped(records)| ==>
      var g := Grouped(records)[i];
      g.total == TotalFor(records, g.product) && g.count == CountFor(records, g.product) && g.count > 0
    ensures forall p :: HasProduct(Grouped(records), p) <==> ReportsShortage(records, p)
  {
    var groups := Grouped(records);
    GroupedFind(records);
    forall i | 0 <= i < |groups|
      ensures groups[i].total == TotalFor(records, groups[i].product)
      ensures groups[i].count == CountFor(records, groups[i].product) && groups[i].count > 0
    {
      FindOwnKey(groups, ProductKey, i);
    }
    forall p ensures HasProduct(groups, p) <==> CountFor(records, p) > 0 {
      if HasProduct(groups, p) {
        var i :| 0 <= i < |groups| && groups[i].product == p;
        FindOwnKey(groups, ProductKey, i);
      }
      if CountFor(records, p) > 0 {
        var g := Find(groups, ProductKey, p).value;
        var i :| 0 <= i < |groups| && groups[i] == g;
      }
    }
    forall p ensures CountFor(records, p) > 0 <==> ReportsShortage(records, p) {
      CountForPositive(records, p);
    }
  }

  predicate NonIncreasing(s: seq<ProductDemand>)
  {
    forall i, j :: 0 <= i < j < |s| ==> s[i].total >= s[j].total
  }

  /** Places `x` after every entry whose total is at least its own. */
  function InsertByTotal(s: seq<ProductDemand>, x: ProductDemand): (r: seq<ProductDemand>)
    ensures multiset(r) == multiset(s) + multiset{x}
  {
    if s == [] then [x]
    else if s[0].total >= x.total then
      assert s == [s[0]] + s[1..];
      [s[0]] + InsertByTotal(s[1..], x)
    else [x] + s
  }

  lemma {:induction false} InsertByTotalOrdered(s: seq<ProductDemand>, x: ProductDemand)
    requires NonIncreasing(s)
    ensures NonIncreasing(InsertByTotal(s, x))
    decreases |s|
  {
    if s != [] && s[0].total >= x.total {
      var rest := InsertByTotal(s[1..], x);
      InsertByTotalOrdered(s[1..], x);
      InsertBounded(s[1..], x, s[0].total);
      var r := [s[0]] + rest;
      forall i, j | 0 <= i < j < |r| ensures r[i].total >= r[j].total {
        if i > 0 {
          assert r[i] == rest[i - 1] && r[j] == rest[j - 1];
        } else {
          assert r[j] == rest[j - 1];
        }
      }
    }
  }

  /** Inserting keeps every total within a bound that all the entries respect. */
  lemma {:induction false} InsertBounded(s: seq<ProductDemand>, x: ProductDemand, b: nat)
    requires forall k :: 0 <= k < |s| ==> s[k].total <= b
    requires x.total <= b
    ensures forall k :: 0 <= k < |InsertByTotal(s, x)| ==> InsertByTotal(s, x)[k].total <= b
    decreases |s|
  {
    if s != [] && s[0].total >= x.total {
      InsertBounded(s[1..], x, b);
      var rest := InsertByTotal(s[1..], x);
      assert forall k :: 1 <= k < |rest| + 1 ==> ([s[0]] + rest)[k] == rest[k - 1];
    }
  }

  /** `.sort((a, b) => b.demanda_total - a.demanda_total)`: a stable sort, largest total first. */
  function SortByTotal(s: seq<ProductDemand>): (r: seq<ProductDemand>)
    ensures multiset(r) == multiset(s)
    ensures NonIncreasing(r)
  {
    if s == [] then []
    else
      var sorted := SortByTotal(s[..|s| - 1]);
      assert s == s[..|s| - 1] + [s[|s| - 1]];
      InsertByTotalOrdered(sorted, s[|s| - 1]);
      InsertByTotal(sorted, s[|s| - 1])
  }

  /** The list `actualizarProductosCriticos` renders: every product with unmet demand once,
      with its total and record count, largest total first. */
  method CriticalProducts(records: seq<Record>) returns (products: seq<ProductDemand>)
    ensures products == SortByTotal(Grouped(records))
    ensures NonIncreasing(products)
    ensures multiset(products) == multiset(Grouped(records))
  {
    var groups := GroupCritical(records);
    products := SortByTotal(groups);
  }

  /** The key `generarResumenPorCentro` files a record under. */
  const UNSPECIFIED: string := "Sin especificar"

  function CentreKey(r: Record): string
  {
    if r.facility == "" then UNSPECIFIED else r.facility
  }

  /** One accumulator of `resumen`: the record count, the product and service-type sets, the
      three quantity totals, and the records with unmet demand (`productosCriticos`). */
  datatype Tally = Tally(
    centre: string,
    count: nat,
    products: set<string>,
    required: nat,
    available: nat,
    unmet: nat,
    services: set<string>,
    critical: seq<Record>)

  function TallyKey(t: Tally): string
  {
    t.centre
  }

  function EmptyTally(centre: string): Tally
  {
    Tally(centre, 0, {}, 0, 0, 0, {}, [])
  }

  /** The body of the `forEach` for one record of the centre. */
  function AddRecord(r: Record): Tally -> Tally
  {
    (t: Tally) => t.(
      count := t.count + 1,
      products := t.products + {r.product},
      required := t.required + r.required,
      available := t.available + r.available,
      unmet := t.unmet + r.unmet,
      services := if r.serviceType != "" then t.services + {r.serviceType} else t.services,
      critical := if r.unmet > 0 then t.critical + [r] else t.critical)
  }

  /** `resumen` after the `forEach` over `records`, in insertion order. */
  function Tallies(records: seq<Record>): seq<Tally>
  {
    if records == [] then []
    else
      var ts, r := Tallies(records[..|records| - 1]), records[|records| - 1];
      Upsert(ts, TallyKey, CentreKey(r), AddRecord(r), AddRecord(r)(EmptyTally(CentreKey(r))))
  }

  /** Reference: the records filed under `centre`, in order. */
  function InCentre(centre: string): Record -> bool
  {
    (r: Record) => CentreKey(r) == centre
  }

  function ProductsOf(rs: seq<Record>): set<string>
  {
    set i | 0 <= i < |rs| :: rs[i].product
  }

  function ServicesOf(rs: seq<Record>): set<string>
  {
    set i | 0 <= i < |rs| && rs[i].serviceType != "" :: rs[i].serviceType
  }

  function SumRequired(rs: seq<Record>): nat
  {
    if rs == [] then 0 else SumRequired(rs[..|rs| - 1]) + rs[|rs| - 1].required
  }

  function SumAvailable(rs: seq<Record>): nat
  {
    if rs == [] then 0 else SumAvailable(rs[..|rs| - 1]) + rs[|rs| - 1].available
  }

  function SumUnmet(rs: seq<Record>): nat
  {
    if rs == [] then 0 else SumUnmet(rs[..|rs| - 1]) + rs[|rs| - 1].unmet
  }

  function IsCritical(r: Record): bool
  {
    r.unmet > 0
  }

  /** Reference: the accumulator a centre's records should produce, field by field. */
  function TallyOf(centre: string, rs: seq<Record>): Tally
  {
    Tally(centre, |rs|, ProductsOf(rs), SumRequired(rs), SumAvailable(rs), SumUnmet(rs),
          ServicesOf(rs), Filter(rs, IsCritical))
  }

  lemma TallyOfSnoc(centre: string, rs: seq<Record>, r: Record)
    ensures TallyOf(centre, rs + [r]) == AddRecord(r)(TallyOf(centre, rs))
  {
    var t := rs + [r];
    assert t[..|rs|] == rs;
    assert forall i :: 0 <= i < |rs| ==> t[i] == rs[i];
    assert t[|rs|] == r;
    assert ProductsOf(t) == ProductsOf(rs) + {r.product};
    assert ServicesOf(t) == if r.serviceType != "" then ServicesOf(rs) + {r.serviceType} else ServicesOf(rs);
  }

  /** Reference: what `resumen[c]` should hold after the whole `forEach`. */
  function ExpectedTally(records: seq<Record>, c: string): Option<Tally>
  {
    var rs := Filter(records, InCentre(c));
    if rs == [] then None else Some(TallyOf(c, rs))
  }

  /** `resumen[c]` is the reference accumulator of the records filed under `c`, and there is no
      entry for a key no record is filed under. */
  lemma {:induction false} TalliesFind(records: seq<Record>)
    ensures KeysDistinct(Tallies(records), TallyKey)
    ensures forall c :: Find(Tallies(records), TallyKey, c) == ExpectedTally(records, c)
    decreases |records|
  {
    if records != [] {
      var init, r := records[..|records| - 1], records[|records| - 1];
      assert records == init + [r];
      TalliesFind(init);
      TalliesSnoc(init, r);
      var before, after := Tallies(init), Tallies(records);
      forall c ensures Find(after, TallyKey, c) == ExpectedTally(records, c) {
        TalliesStep(init, r, c, Find(before, TallyKey, c), Find(after, TallyKey, c));
      }
    }
  }

  /** The accumulators after one record more, key by key. */
  lemma TalliesSnoc(init: seq<Record>, r: Record)
    requires KeysDistinct(Tallies(init), TallyKey)
    ensures KeysDistinct(Tallies(init + [r]), TallyKey)
    ensures forall c :: (Find(Tallies(init + [r]), TallyKey, c)
      == if c != CentreKey(r) then Find(Tallies(init), TallyKey, c)
         else if Find(Tallies(init), TallyKey, c).Some? then Some(AddRecord(r)(Find(Tallies(init), TallyKey, c).value))
         else Some(AddRecord(r)(EmptyTally(c))))
  {
    var k := CentreKey(r);
    assert (init + [r])[..|init|] == init;
    assert Tallies(init + [r]) == Upsert(Tallies(init), TallyKey, k, AddRecord(r), AddRecord(r)(EmptyTally(k)));
    assert forall t :: TallyKey(AddRecord(r)(t)) == TallyKey(t);
    UpsertFind(Tallies(init), TallyKey, k, AddRecord(r), AddRecord(r)(EmptyTally(k)));
  }

  /** One record more: only the entry for the record's own centre key changes. */
  lemma TalliesStep(init: seq<Record>, r: Record, c: string, before: Option<Tally>, after: Option<Tally>)
    requires before == ExpectedTally(init, c)
    requires after == if c != CentreKey(r) then before
      else if before.Some? then Some(AddRecord(r)(before.value))
      else Some(AddRecord(r)(EmptyTally(c)))
    ensures after == ExpectedTally(init + [r], c)
  {
    var rs := Filter(init, InCentre(c));
    FilterSnoc(init, r, InCentre(c));
    if c == CentreKey(r) {
      TalliesStepOwn(c, rs, r, before, after);
    } else {
      assert rs + [] == rs;
    }
  }

  lemma TalliesStepOwn(c: string, rs: seq<Record>, r: Record, before: Option<Tally>, after: Option<Tally>)
    requires before == if rs == [] then None else Some(TallyOf(c, rs))
    requires after == if before.Some? then Some(AddRecord(r)(before.value)) else Some(AddRecord(r)(EmptyTally(c)))
    ensures after == Some(TallyOf(c, rs + [r]))
  {
    TallyOfSnoc(c, rs, r);
    TallyOfEmpty(c);
    assert rs == [] ==> rs + [r] == [] + [r];
  }

  lemma TallyOfEmpty(c: string)
    ensures TallyOf(c, []) == EmptyTally(c)
  {
    assert ProductsOf([]) == {};
    assert ServicesOf([]) == {};
  }

  /** Some record is filed under the key `c`. */
  predicate FiledUnder(records: seq<Record>, c: string)
  {
    exists j :: 0 <= j < |records| && CentreKey(records[j]) == c
  }

  lemma FiledUnderIff(records: seq<Record>, c: string)
    ensures Filter(records, InCentre(c)) != [] <==> FiledUnder(records, c)
  {
    var rs := Filter(records, InCentre(c));
    if rs != [] {
      assert rs[0] in rs;
      var j :| 0 <= j < |records| && records[j] == rs[0];
    }
    if FiledUnder(records, c) {
      var j :| 0 <= j < |records| && CentreKey(records[j]) == c;
      assert InCentre(c)(records[j]);
    }
  }

  /** One entry of the returned array (the float `coberturaPromedio` is not modelled; the top
      list is the entries behind `productosCriticosTexto`). */
  datatype CentreSummary = CentreSummary(
    centre: string,
    records: nat,
    productCount: nat,
    required: nat,
    available: nat,
    unmet: nat,
    serviceCount: nat,
    top: seq<ProductDemand>)

  const TOP_COUNT: nat := 5

  /** The `.map` over `Object.values(resumen)`: the sets become sizes, and the centre's critical
      products are grouped, sorted largest first and cut to five. */
  function Finish(t: Tally): CentreSummary
  {
    var ranked := SortByTotal(Grouped(t.critical));
    CentreSummary(t.centre, t.count, |t.products|, t.required, t.available, t.unmet, |t.services|,
                  ranked[..if |ranked| < TOP_COUNT then |ranked| else TOP_COUNT])
  }

  /** The `.map` over the accumulators. */
  function FinishedAll(ts: seq<Tally>): (ss: seq<CentreSummary>)
    ensures |ss| == |ts|
  {
    seq(|ts|, i requires 0 <= i < |ts| => Finish(ts[i]))
  }

  function Summaries(records: seq<Record>): seq<CentreSummary>
  {
    FinishedAll(Tallies(records))
  }

  /** The body of the `forEach` for one record. */
  method AddToTally(t: Tally, r: Record) returns (u: Tally)
    ensures u == AddRecord(r)(t)
  {
    u := t.(count := t.count + 1, products := t.products + {r.product});
    u := u.(required := u.required + r.required, available := u.available + r.available);
    u := u.(unmet := u.unmet + r.unmet);
    if r.serviceType != "" {
      u := u.(services := u.services + {r.serviceType});
    }
    if r.unmet > 0 {
      u := u.(critical := u.critical + [r]);
    }
  }

  /** The accumulating `forEach` of `generarResumenPorCentro`. */
  method TallyRecords(records: seq<Record>) returns (tallies: seq<Tally>)
    ensures tallies == Tallies(records)
  {
    tallies := [];
    for i := 0 to |records|
      invariant tallies == Tallies(records[..i])
    {
      assert records[..i + 1][..i] == records[..i];
      var r := records[i];
      var centre := if r.facility == "" then UNSPECIFIED else r.facility;
      var found := IndexOf(tallies, TallyKey, centre);
      ghost var expected := Upsert(tallies, TallyKey, centre, AddRecord(r), AddRecord(r)(EmptyTally(centre)));
      if found.Some? {
        var t := AddToTally(tallies[found.value], r);
        tallies := tallies[found.value := t];
      } else {
        var t := AddToTally(EmptyTally(centre), r);
        tallies := tallies + [t];
      }
      assert tallies == expected;
    }
    assert records[..|records|] == records;
  }

  /** The `.map` over `Object.values(resumen)`. */
  method FinishAll(tallies: seq<Tally>) returns (out: seq<CentreSummary>)
    ensures out == FinishedAll(tallies)
  {
    out := [];
    for i := 0 to |tallies|
      invariant out == FinishedAll(tallies[..i])
    {
      var t := tallies[i];
      var groups := GroupCritical(t.critical);
      var ranked := SortByTotal(groups);
      var top := ranked[..if |ranked| < TOP_COUNT then |ranked| else TOP_COUNT];
      var s := CentreSummary(t.centre, t.count, |t.products|, t.required, t.available, t.unmet, |t.services|, top);
      FinishedAllSnoc(tallies[..i], t);
      assert tallies[..i + 1] == tallies[..i] + [tallies[i]];
      out := out + [s];
    }
    assert tallies[..|tallies|] == tallies;
  }

  lemma FinishedAllSnoc(ts: seq<Tally>, t: Tally)
    ensures FinishedAll(ts + [t]) == FinishedAll(ts) + [Finish(t)]
  {
    var l, r := FinishedAll(ts + [t]), FinishedAll(ts) + [Finish(t)];
    assert forall j :: 0 <= j < |l| ==> l[j] == r[j];
  }

  /** `generarResumenPorCentro(datos)`: the accumulating `forEach`, then the `.map`. */
  method CentreSummaries(records: seq<Record>) returns (out: seq<CentreSummary>)
    ensures out == Summaries(records)
  {
    var tallies := TallyRecords(records);
    out := FinishAll(tallies);
  }

  /** Dropping the records without unmet demand does not change the grouping. */
  lemma {:induction false} GroupedOfCritical(rs: seq<Record>)
    ensures Grouped(Filter(rs, IsCritical)) == Grouped(rs)
    decreases |rs|
  {
    if rs != [] {
      var init, r := rs[..|rs| - 1], rs[|rs| - 1];
      GroupedOfCritical(init);
      var f := Filter(init, IsCritical);
      assert Filter(rs, IsCritical) == f + (if IsCritical(r) then [r] else []);
      if r.unmet > 0 {
        var g := f + [r];
        assert g[..|g| - 1] == f && g[|g| - 1] == r;
        assert Grouped(g) == Upsert(Grouped(f), ProductKey, r.product, AddDemand(r.unmet), ProductDemand(r.product, r.unmet, 1));
      } else {
        assert f + [] == f;
      }
    }
  }

  predicate HasCentre(ss: seq<CentreSummary>, c: string)
  {
    exists i :: 0 <= i < |ss| && ss[i].centre == c
  }

  /** The summary has one row per centre key some record is filed under, and no other row. */
  lemma SummaryKeys(records: seq<Record>)
    ensures forall i, j :: 0 <= i < j < |Summaries(records)| ==> Summaries(records)[i].centre != Summaries(records)[j].centre
    ensures forall c :: HasCentre(Summaries(records), c) <==> FiledUnder(records, c)
  {
    var ts, ss := Tallies(records), Summaries(records);
    TalliesFind(records);
    assert forall i :: 0 <= i < |ss| ==> ss[i].centre == ts[i].centre;
    forall c ensures HasCentre(ss, c) <==> FiledUnder(records, c) {
      FiledUnderIff(records, c);
      if HasCentre(ss, c) {
        var i :| 0 <= i < |ss| && ss[i].centre == c;
        FindOwnKey(ts, TallyKey, i);
      }
      if FiledUnder(records, c) {
        var t := Find(ts, TallyKey, c).value;
        var i :| 0 <= i < |ts| && ts[i] == t;
        assert ss[i].centre == c;
      }
    }
  }

  /** Each row counts its centre's records, distinct products and non-empty service types, sums
      its three quantities, and lists at most five of its products with unmet demand, each with
      that product's total over the centre's records, largest total first. */
  lemma SummaryRow(records: seq<Record>, i: nat)
    requires i < |Summaries(records)|
    ensures var s, rs := Summaries(records)[i], Filter(records, InCentre(Summaries(records)[i].centre));
      && rs != []
      && s.records == |rs|
      && s.productCount == |ProductsOf(rs)|
      && s.required == SumRequired(rs)
      && s.available == SumAvailable(rs)
      && s.unmet == SumUnmet(rs)
      && s.serviceCount == |ServicesOf(rs)|
      && |s.top| == (if |Grouped(rs)| < TOP_COUNT then |Grouped(rs)| else TOP_COUNT)
      && NonIncreasing(s.top)
      && (forall k :: 0 <= k < |s.top| ==> s.top[k].total == TotalFor(rs, s.top[k].product) && s.top[k].count > 0)
      && forall g :: g in Grouped(rs) && g !in s.top ==> forall k :: 0 <= k < |s.top| ==> g.total <= s.top[k].total
  {
    var ts := Tallies(records);
    TalliesFind(records);
    FindOwnKey(ts, TallyKey, i);
    var c := ts[i].centre;
    var rs := Filter(records, InCentre(c));
    assert ExpectedTally(records, c) == Some(ts[i]);
    assert Summaries(records)[i] == Finish(TallyOf(c, rs));
    FinishMeaning(c, rs);
  }

  /** The row built from the reference accumulator of one centre's records. */
  lemma FinishMeaning(c: string, rs: seq<Record>)
    ensures var s := Finish(TallyOf(c, rs));
      && s.records == |rs|
      && s.productCount == |ProductsOf(rs)|
      && s.required == SumRequired(rs)
      && s.available == SumAvailable(rs)
      && s.unmet == SumUnmet(rs)
      && s.serviceCount == |ServicesOf(rs)|
      && |s.top| == (if |Grouped(rs)| < TOP_COUNT then |Grouped(rs)| else TOP_COUNT)
      && NonIncreasing(s.top)
      && (forall k :: 0 <= k < |s.top| ==> s.top[k].total == TotalFor(rs, s.top[k].product) && s.top[k].count > 0)
      && forall g :: g in Grouped(rs) && g !in s.top ==> forall k :: 0 <= k < |s.top| ==> g.total <= s.top[k].total
  {
    GroupedOfCritical(rs);
    var n := |Grouped(rs)|;
    TopMeaning(rs, if n < TOP_COUNT then n else TOP_COUNT);
  }

  /** The first `n` ranked groups (`.slice(0, n)` after the sort): ordered, with the
      per-product totals, and no product left out has a larger total than one kept. */
  lemma TopMeaning(rs: seq<Record>, n: nat)
    requires n <= |Grouped(rs)|
    ensures |SortByTotal(Grouped(rs))| == |Grouped(rs)|
    ensures var top := SortByTotal(Grouped(rs))[..n];
      && NonIncreasing(top)
      && (forall k :: 0 <= k < |top| ==> top[k].total == TotalFor(rs, top[k].product) && top[k].count > 0)
      && forall g :: g in Grouped(rs) && g !in top ==> forall k :: 0 <= k < |top| ==> g.total <= top[k].total
  {
    var groups := Grouped(rs);
    var ranked := SortByTotal(groups);
    assert |ranked| == |multiset(ranked)| == |multiset(groups)| == |groups|;
    var top := ranked[..n];
    GroupedMeaning(rs);
    forall k | 0 <= k < |top| ensures top[k].total == TotalFor(rs, top[k].product) && top[k].count > 0 {
      assert top[k] == ranked[k];
      assert ranked[k] in multiset(groups);
      var m :| 0 <= m < |groups| && groups[m] == ranked[k];
    }
    forall g | g in groups && g !in top ensures forall k :: 0 <= k < |top| ==> g.total <= top[k].total {
      assert g in multiset(ranked);
      PrefixKeepsLargest(ranked, n, g);
    }
  }

  /** An entry of a list ordered largest first that is not among the first `n` has a total no
      larger than any of them. */
  lemma PrefixKeepsLargest(ranked: seq<ProductDemand>, n: nat, g: ProductDemand)
    requires NonIncreasing(ranked) && n <= |ranked|
    requires g in ranked && g !in ranked[..n]
    ensures forall k :: 0 <= k < n ==> g.total <= ranked[k].total
  {
    var j :| 0 <= j < |ranked| && ranked[j] == g;
  }
}
