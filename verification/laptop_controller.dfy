/** The catalog handlers (controllers/laptopController.js) over a store
    mapping ids to laptops. The routes run `protect` and
    `restrictTo('admin', 'master')` before the create, update and delete
    handlers, so those receive an authenticated caller. */
module LaptopController {
  import opened Common
  import opened UserModel
  import opened LaptopModel
  import opened AuthMiddleware
  import opened Listing
  import opened StringSort

  // ---------------------------------------------------------------------
  // createLaptop, getLaptop
  // ---------------------------------------------------------------------

  /** `createLaptop`: 400 without a non-empty image list; otherwise the body
      with `addedBy` forced to the caller is created under the fresh id
      `newId`, or rejected with 400 by validation. */
  function CreateLaptop(store: map<Id, Laptop>, caller: Principal, body: LaptopPayload, newId: Id)
    : (r: (Result<Id>, map<Id, Laptop>))
    requires newId !in store
    ensures body.images.None? || body.images.value == [] ==> r == (Err(BadRequest), store)
    ensures r.0.Err? ==> r.0.failure == BadRequest && r.1 == store
    ensures body.images.Some? && body.images.value != [] ==>
      (r.0.Ok? <==> LaptopValid(NewLaptop(body.(addedBy := Some(caller.id)))))
    ensures r.0.Ok? ==>
      && r.0.value == newId
      && r.1 == store[newId := NewLaptop(body.(addedBy := Some(caller.id)))]
      && r.1[newId].addedBy == Some(caller.id)
      && LaptopValid(r.1[newId])
  {
    if body.images.None? || body.images.value == [] then (Err(BadRequest), store)
    else
      match SaveLaptop(NewLaptop(body.(addedBy := Some(caller.id))))
      case Err(f) => (Err(f), store)
      case Ok(l) => (Ok(newId), store[newId := l])
  }

  /** Whatever `addedBy` the body carries, the created record's owner is
      the caller. */
  lemma CreateLaptopIgnoresBodyOwner(store: map<Id, Laptop>, caller: Principal, body: LaptopPayload, newId: Id, claimed: Option<Id>)
    requires newId !in store
    ensures CreateLaptop(store, caller, body.(addedBy := claimed), newId) == CreateLaptop(store, caller, body, newId)
  {
  }

  /** `getLaptop`: the record, or 404. */
  function GetLaptop(store: map<Id, Laptop>, id: Id): (r: Result<Laptop>)
    ensures r.Ok? <==> id in store
    ensures r.Ok? ==> r.value == store[id]
    ensures r.Err? ==> r.failure == NotFound
  {
    if id in store then Ok(store[id]) else Err(NotFound)
  }

  // ---------------------------------------------------------------------
  // updateLaptop, deleteLaptop
  // ---------------------------------------------------------------------

  /** The handlers' own ownership test: master, or `addedBy` equal to the
      caller. A non-master meeting a record without `addedBy` makes
      `addedBy.toString()` throw, which the handler's catch answers with 400. */
  function OwnerCheck(l: Laptop, caller: Principal): (r: Result<()>)
    ensures r.Ok? <==> caller.IsMaster() || l.addedBy == Some(caller.id)
    ensures r.Err? ==> (r.failure == BadRequest <==> l.addedBy.None?)
    ensures r.Err? ==> r.failure == BadRequest || r.failure == Forbidden
  {
    if caller.IsMaster() then Ok(())
    else if l.addedBy.None? then Err(BadRequest)
    else if l.addedBy.value != caller.id then Err(Forbidden)
    else Ok(())
  }

  function Owner(l: Laptop): Option<Id> {
    l.addedBy
  }

  /** The handlers' test admits exactly whom `restrictToOwnerOrMaster`
      admits; they differ only in the code for an ownerless record. */
  lemma OwnerCheckAgreesWithMiddleware(store: map<Id, Laptop>, id: Id, caller: Principal)
    requires id in store
    ensures OwnerCheck(store[id], caller).Ok? <==> RestrictToOwnerOrMaster(store, Owner, id, caller).Ok?
    ensures store[id].addedBy.Some? ==> OwnerCheck(store[id], caller) == RestrictToOwnerOrMaster(store, Owner, id, caller)
  {
  }

  /** `updateLaptop`: 404 before the ownership test, then 400 for a supplied
      but empty image list, then the body merged onto the record and saved. */
  function UpdateLaptop(store: map<Id, Laptop>, id: Id, caller: Principal, body: LaptopPayload)
    : (r: (Result<Laptop>, map<Id, Laptop>))
    ensures r.0.Err? ==> r.1 == store
    ensures id !in store ==> r.0 == Err(NotFound)
    ensures id in store && OwnerCheck(store[id], caller).Err? ==> r.0 == Err(OwnerCheck(store[id], caller).failure)
    ensures id in store && OwnerCheck(store[id], caller).Ok? && body.images == Some([]) ==> r.0 == Err(BadRequest)
    ensures id in store && OwnerCheck(store[id], caller).Ok? && body.images != Some([]) ==>
      (r.0.Ok? <==> LaptopValid(Merge(store[id], body)))
    ensures r.0.Ok? ==>
      && id in store
      && (caller.IsMaster() || store[id].addedBy == Some(caller.id))
      && r.0.value == Merge(store[id], body)
      && LaptopValid(r.0.value)
      && r.1 == store[id := r.0.value]
  {
    if id !in store then (Err(NotFound), store)
    else
      match OwnerCheck(store[id], caller)
      case Err(f) => (Err(f), store)
      case Ok(_) =>
        if body.images == Some([]) then (Err(BadRequest), store)
        else
          match SaveLaptop(Merge(store[id], body))
          case Err(f) => (Err(f), store)
          case Ok(l) => (Ok(l), store[id := l])
  }

  /** An update leaves every other record alone and, in the updated record,
      every field the body does not name; an empty body changes nothing. */
  lemma UpdateLaptopFrame(store: map<Id, Laptop>, id: Id, caller: Principal, body: LaptopPayload, other: Id)
    requires UpdateLaptop(store, id, caller, body).0.Ok?
    ensures other != id && other in store ==> UpdateLaptop(store, id, caller, body).1[other] == store[other]
    ensures body == EmptyPayload ==> UpdateLaptop(store, id, caller, body).1 == store
  {
    if body == EmptyPayload {
      MergeEmpty(store[id]);
    }
  }

  /** `deleteLaptop`: 404 before the ownership test; otherwise exactly that
      record is removed. */
  function DeleteLaptop(store: map<Id, Laptop>, id: Id, caller: Principal): (r: (Result<()>, map<Id, Laptop>))
    ensures r.0.Err? ==> r.1 == store
    ensures id !in store ==> r.0 == Err(NotFound)
    ensures id in store ==> (r.0.Ok? <==> caller.IsMaster() || store[id].addedBy == Some(caller.id))
    ensures id in store && r.0.Err? ==> r.0 == Err(OwnerCheck(store[id], caller).failure)
    ensures r.0.Ok? ==> r.1.Keys == store.Keys - {id} && forall k :: k in r.1 ==> r.1[k] == store[k]
  {
    if id !in store then (Err(NotFound), store)
    else
      match OwnerCheck(store[id], caller)
      case Err(f) => (Err(f), store)
      case Ok(_) => (Ok(()), store - {id})
  }

  /** `getLaptop` reads back what the writes leave: the created record
      under its new id, the merged record after an update, and 404 after a
      delete; every other id reads as before. */
  lemma GetLaptopAfterWrites(store: map<Id, Laptop>, caller: Principal, id: Id, other: Id, body: LaptopPayload, newId: Id)
    requires newId !in store
    ensures CreateLaptop(store, caller, body, newId).0.Ok? ==>
      && GetLaptop(CreateLaptop(store, caller, body, newId).1, newId) == Ok(NewLaptop(body.(addedBy := Some(caller.id))))
      && (other != newId ==> GetLaptop(CreateLaptop(store, caller, body, newId).1, other) == GetLaptop(store, other))
    ensures UpdateLaptop(store, id, caller, body).0.Ok? ==>
      && GetLaptop(UpdateLaptop(store, id, caller, body).1, id) == Ok(Merge(store[id], body))
      && (other != id ==> GetLaptop(UpdateLaptop(store, id, caller, body).1, other) == GetLaptop(store, other))
    ensures DeleteLaptop(store, id, caller).0.Ok? ==>
      && GetLaptop(DeleteLaptop(store, id, caller).1, id) == Err(NotFound)
      && (other != id ==> GetLaptop(DeleteLaptop(store, id, caller).1, other) == GetLaptop(store, other))
  {
  }

  // ---------------------------------------------------------------------
  // getAllLaptops: filters
  // ---------------------------------------------------------------------

  /** A `parseInt` result. */
  datatype Parsed = Num(n: int) | NaN

  /** A `parseFloat` result. */
  datatype ParsedReal = Finite(x: real) | NotANumber

  /** The query string of `getAllLaptops`. A string filter is `None` when
      the key is absent or empty (falsy); a numeric bound is present only
      when its raw string was truthy, and holds what parsing it produced.
      An absent `page` or `limit` parses to NaN. */
  datatype LaptopQuery = LaptopQuery(
    page: Parsed,
    limit: Parsed,
    search: Option<string>,
    brand: Option<string>,
    minPrice: Option<ParsedReal>,
    maxPrice: Option<ParsedReal>,
    category: Option<string>,
    processor: Option<string>,
    minRam: Option<Parsed>,
    maxRam: Option<Parsed>,
    inStock: Option<string>)

  /** `$regex` with option `i`, for a pattern without metacharacters: a
      case-insensitive substring test. */
  predicate ContainsIgnoringCase(hay: string, needle: string) {
    exists i :: 0 <= i <= |hay| - |needle| && OccursAt(ToLower(hay), ToLower(needle), i)
  }

  predicate OccursAt(hay: string, needle: string, i: int) {
    0 <= i <= |hay| - |needle| && hay[i..i + |needle|] == needle
  }

  /** The value a RAM bound takes once Mongoose casts `parseInt(raw)` to
      the schema type of `ram`, which is String. */
  function RamBound(p: Parsed): string {
    match p
    case Num(n) => IntToString(n)
    case NaN => "NaN"
  }

  /** The search clause: an OR over name, manufacturer, categories,
      description and brand. The last two are not schema fields, so they
      are absent from every record and never match. */
  predicate SearchHit(l: Laptop, s: string) {
    || ContainsIgnoringCase(l.name, s)
    || ContainsIgnoringCase(l.manufacturer, s)
    || (exists c :: c in l.categories && ContainsIgnoringCase(c, s))
  }

  predicate LowerPrice(l: Laptop, b: Option<ParsedReal>) {
    b.Some? && b.value.Finite? ==> l.price.Some? && l.price.value >= b.value.x
  }

  predicate UpperPrice(l: Laptop, b: Option<ParsedReal>) {
    b.Some? && b.value.Finite? ==> l.price.Some? && l.price.value <= b.value.x
  }

  /** Whether a record is selected by the query the handler builds: one
      clause per filter, all of which must hold. The RAM bounds compare
      strings in the database's code-unit order. `brand` and `category`
      name fields the schema lacks, so a request filtering on them selects
      nothing. */
  predicate Matches(l: Laptop, q: LaptopQuery) {
    && (Truthy(q.search) ==> SearchHit(l, q.search.value))
    && !Truthy(q.brand)
    && LowerPrice(l, q.minPrice) && UpperPrice(l, q.maxPrice)
    && !Truthy(q.category)
    && (Truthy(q.processor) ==> ContainsIgnoringCase(l.processor, q.processor.value))
    && (q.minRam.Some? ==> !StrLess(l.ram, RamBound(q.minRam.value)))
    && (q.maxRam.Some? ==> !StrLess(RamBound(q.maxRam.value), l.ram))
    && (q.inStock == Some("true") ==> l.inStock)
  }

  datatype FilterKind = SearchFilter | BrandFilter | PriceFilter | CategoryFilter | ProcessorFilter | RamFilter | StockFilter

  const NoFilters: LaptopQuery :=
    LaptopQuery(NaN, NaN, None, None, None, None, None, None, None, None, None)

  /** The query keeping one filter of `q` and none of the others. */
  function Only(q: LaptopQuery, k: FilterKind): LaptopQuery {
    match k
    case SearchFilter => NoFilters.(search := q.search)
    case BrandFilter => NoFilters.(brand := q.brand)
    case PriceFilter => NoFilters.(minPrice := q.minPrice, maxPrice := q.maxPrice)
    case CategoryFilter => NoFilters.(category := q.category)
    case ProcessorFilter => NoFilters.(processor := q.processor)
    case RamFilter => NoFilters.(minRam := q.minRam, maxRam := q.maxRam)
    case StockFilter => NoFilters.(inStock := q.inStock)
  }

  /** Filters compose conjunctively: a record matches the query iff it
      matches each of its filters on its own. */
  lemma FiltersConjoin(l: Laptop, q: LaptopQuery)
    ensures Matches(l, q) <==> forall k :: Matches(l, Only(q, k))
  {
    if Matches(l, q) {
      forall k ensures Matches(l, Only(q, k)) {
        MatchesEachFilter(l, q, k);
      }
    }
    if forall k :: Matches(l, Only(q, k)) {
      EachFilterMatches(l, q);
    }
  }

  lemma MatchesEachFilter(l: Laptop, q: LaptopQuery, k: FilterKind)
    requires Matches(l, q)
    ensures Matches(l, Only(q, k))
  {
    match k
    case SearchFilter =>
    case BrandFilter =>
    case PriceFilter =>
    case CategoryFilter =>
    case ProcessorFilter =>
    case RamFilter =>
    case StockFilter =>
  }

  lemma EachFilterMatches(l: Laptop, q: LaptopQuery)
    requires forall k :: Matches(l, Only(q, k))
    ensures Matches(l, q)
  {
    assert Matches(l, Only(q, SearchFilter)) && Matches(l, Only(q, BrandFilter));
    assert Matches(l, Only(q, PriceFilter)) && Matches(l, Only(q, CategoryFilter));
    assert Matches(l, Only(q, ProcessorFilter)) && Matches(l, Only(q, RamFilter));
    assert Matches(l, Only(q, StockFilter));
  }

  /** The stock filter applies only to the exact value "true". */
  lemma StockFilterOnlyForTrue(l: Laptop, v: string)
    requires v != "true"
    ensures Matches(l, NoFilters.(inStock := Some(v)))
  {
  }

  /** The RAM bounds compare strings, not sizes: a 16 GB machine fails a
      minimum of 8. */
  lemma RamBoundIsLexicographic(l: Laptop)
    requires l.ram == "16GB"
    ensures !Matches(l, NoFilters.(minRam := Some(Num(8))))
  {
    assert RamBound(Num(8)) == "8";
  }

  // ---------------------------------------------------------------------
  // getAllLaptops: pagination
  // ---------------------------------------------------------------------

  /** `parseInt(req.query.page) || 1`. */
  function PageNumber(p: Parsed): (n: int)
    ensures n != 0
    ensures p.NaN? || p.n == 0 ==> n == 1
    ensures p.Num? && p.n != 0 ==> n == p.n
  {
    if p.NaN? || p.n == 0 then 1 else p.n
  }

  /** `parseInt(req.query.limit) || 10`. */
  function PageLimit(p: Parsed): (n: int)
    ensures n != 0
    ensures p.NaN? || p.n == 0 ==> n == 10
    ensures p.Num? && p.n != 0 ==> n == p.n
  {
    if p.NaN? || p.n == 0 then 10 else p.n
  }

  function Abs(n: int): nat {
    if n < 0 then -n else n
  }

  /** `Math.ceil(total / limit)`. */
  function CeilDiv(total: nat, limit: int): (r: int)
    requires limit != 0
    ensures (r as real) - 1.0 < (total as real) / (limit as real) <= r as real
  {
    if limit > 0 then
      var r := (total + limit - 1) / limit;
      assert (r - 1) * limit < total <= r * limit;
      CeilingBounds(total, limit, r);
      r
    else
      var m := -limit;
      var f := total / m;
      assert f * m <= total < (f + 1) * m;
      FloorBounds(total, m, f);
      NegatedDivision(total, limit);
      -f
  }

  /** For a positive real `l`: `t / l <= c` iff `t <= c * l`. */
  lemma DivAtMost(t: real, l: real, c: real)
    requires l > 0.0
    ensures t / l <= c <==> t <= c * l
  {
    var x := t / l;
    assert x * l == t;
    assert (c - x) * l == c * l - t;
  }

  /** For a positive real `l`: `c < t / l` iff `c * l < t`. */
  lemma DivAbove(t: real, l: real, c: real)
    requires l > 0.0
    ensures c < t / l <==> c * l < t
  {
    var x := t / l;
    assert x * l == t;
    assert (x - c) * l == t - c * l;
  }

  lemma CeilingBounds(total: nat, limit: int, r: int)
    requires limit > 0
    requires (r - 1) * limit < total <= r * limit
    ensures (r as real) - 1.0 < (total as real) / (limit as real) <= r as real
  {
    DivAtMost(total as real, limit as real, r as real);
    DivAbove(total as real, limit as real, (r - 1) as real);
  }

  /** For a positive real `l`: `c <= t / l` iff `c * l <= t`. */
  lemma DivAtLeast(t: real, l: real, c: real)
    requires l > 0.0
    ensures c <= t / l <==> c * l <= t
  {
    var x := t / l;
    assert x * l == t;
    assert (x - c) * l == t - c * l;
  }

  /** For a positive real `l`: `t / l < c` iff `t < c * l`. */
  lemma DivBelow(t: real, l: real, c: real)
    requires l > 0.0
    ensures t / l < c <==> t < c * l
  {
    var x := t / l;
    assert x * l == t;
    assert (c - x) * l == c * l - t;
  }

  lemma FloorBounds(total: nat, m: int, f: int)
    requires m > 0
    requires f * m <= total < (f + 1) * m
    ensures (f as real) <= (total as real) / (m as real) < (f as real) + 1.0
  {
    assert (f as real) * (m as real) == (f * m) as real;
    assert ((f + 1) as real) * (m as real) == ((f + 1) * m) as real;
    DivAtLeast(total as real, m as real, f as real);
    DivBelow(total as real, m as real, (f + 1) as real);
  }

  lemma NegatedDivision(total: nat, limit: int)
    requires limit < 0
    ensures (total as real) / (limit as real) == -((total as real) / ((-limit) as real))
  {
  }

  /** The records the query selects, in the collection's natural order. */
  function Select(store: map<Id, Laptop>, ids: seq<Id>, q: LaptopQuery): (r: seq<Id>)
    requires forall i :: 0 <= i < |ids| ==> ids[i] in store
    ensures forall x :: x in r <==> x in ids && Matches(store[x], q)
    ensures Distinct(ids) ==> Distinct(r)
    ensures |r| <= |ids|
  {
    if ids == [] then []
    else
      var rest := Select(store, ids[1..], q);
      if Matches(store[ids[0]], q) then [ids[0]] + rest else rest
  }

  /** Selection keeps the order of the collection: selecting from two
      stretches of it in turn gives the selection from both. With
      `SelectSingle` this determines the whole result. */
  lemma {:induction false} SelectAppend(store: map<Id, Laptop>, a: seq<Id>, b: seq<Id>, q: LaptopQuery)
    requires forall i :: 0 <= i < |a| ==> a[i] in store
    requires forall i :: 0 <= i < |b| ==> b[i] in store
    ensures forall i :: 0 <= i < |a + b| ==> (a + b)[i] in store
    ensures Select(store, a + b, q) == Select(store, a, q) + Select(store, b, q)
    decreases |a|
  {
    var ab := a + b;
    assert forall i :: 0 <= i < |ab| ==> ab[i] in store by {
      forall i | 0 <= i < |ab| ensures ab[i] in store {
        if i < |a| { assert ab[i] == a[i]; } else { assert ab[i] == b[i - |a|]; }
      }
    }
    if a == [] {
      assert ab == b;
    } else {
      assert ab[0] == a[0];
      assert ab[1..] == a[1..] + b;
      SelectAppend(store, a[1..], b, q);
    }
  }

  /** A single record is selected iff it matches. */
  lemma SelectSingle(store: map<Id, Laptop>, x: Id, q: LaptopQuery)
    requires x in store
    ensures Select(store, [x], q) == if Matches(store[x], q) then [x] else []
  {
    assert [x][1..] == [];
  }

  /** One page of the catalog listing. */
  datatype LaptopPage = LaptopPage(laptops: seq<Id>, total: nat, page: int, pages: int)

  /** A price bound that parsed to NaN makes Mongoose's cast of the query
      throw, which the handler answers with 500. */
  predicate PriceBoundIsNaN(q: LaptopQuery) {
    (q.minPrice.Some? && q.minPrice.value.NotANumber?) || (q.maxPrice.Some? && q.maxPrice.value.NotANumber?)
  }

  /** `getAllLaptops`. `natural` is the order in which the collection
      yields its documents: each stored id once. The matching records are
      counted, and `limit` of them (by magnitude: the driver reads a
      negative limit as a single batch of that many) are returned starting
      at `skip = (page - 1) * limit`. A negative skip is refused by the
      database, which the handler answers with 500. */
  function GetAllLaptops(store: map<Id, Laptop>, natural: seq<Id>, q: LaptopQuery): (r: Result<LaptopPage>)
    requires Distinct(natural) && forall id :: id in store <==> id in natural
    ensures r.Err? ==> r.failure == ServerError
    ensures r.Err? <==> PriceBoundIsNaN(q) || (PageNumber(q.page) - 1) * PageLimit(q.limit) < 0
    ensures r.Ok? ==>
      && r.value.page == PageNumber(q.page)
      && r.value.laptops == Window(Select(store, natural, q), (PageNumber(q.page) - 1) * PageLimit(q.limit), Abs(PageLimit(q.limit)))
      && r.value.total == |set id: Id | id in store && Matches(store[id], q)|
      && |r.value.laptops| <= Abs(PageLimit(q.limit))
      && Distinct(r.value.laptops)
      && (forall id :: id in r.value.laptops ==> id in store && Matches(store[id], q))
      && (r.value.pages as real) - 1.0 < (r.value.total as real) / (PageLimit(q.limit) as real) <= r.value.pages as real
  {
    var page := PageNumber(q.page);
    var limit := PageLimit(q.limit);
    var skip := (page - 1) * limit;
    if PriceBoundIsNaN(q) || skip < 0 then Err(ServerError)
    else
      var matched := Select(store, natural, q);
      SelectCount(store, natural, q);
      var w := Window(matched, skip, Abs(limit));
      assert |w| <= Abs(limit);
      assert forall id :: id in w ==> id in matched;
      Ok(LaptopPage(w, |matched|, page, CeilDiv(|matched|, limit)))
  }

  /** The `.skip(skip).limit(take)` window of a listing. */
  function Window(matched: seq<Id>, skip: nat, take: nat): (w: seq<Id>)
    ensures |w| == if skip >= |matched| then 0 else Min(take, |matched| - skip)
    ensures forall i :: 0 <= i < |w| ==> skip + i < |matched| && w[i] == matched[skip + i]
    ensures skip + take <= |matched| ==> |w| == take
    ensures forall x :: x in w ==> x in matched
    ensures Distinct(matched) ==> Distinct(w)
  {
    var lo := if skip < |matched| then skip else |matched|;
    var hi := if skip + take < |matched| then skip + take else |matched|;
    matched[lo..hi]
  }

  function Min(a: nat, b: nat): nat {
    if a <= b then a else b
  }

  /** Consecutive windows concatenate: the page at `skip` of `take`
      records followed by the page after it is the window of both. */
  lemma WindowsConcatenate(matched: seq<Id>, skip: nat, take: nat, more: nat)
    ensures Window(matched, skip, take) + Window(matched, skip + take, more) == Window(matched, skip, take + more)
  {
    var w1, w2, w := Window(matched, skip, take), Window(matched, skip + take, more), Window(matched, skip, take + more);
    assert |w1 + w2| == |w|;
    forall i | 0 <= i < |w| ensures (w1 + w2)[i] == w[i] {
      if i >= |w1| {
        assert (w1 + w2)[i] == w2[i - |w1|];
      }
    }
  }

  /** With a positive limit, the `k`-th matching record (from 0) stands at
      position `k % limit` of the window of page `k / limit + 1`. */
  lemma MatchOnItsPage(matched: seq<Id>, limit: int, k: nat)
    requires limit > 0 && k < |matched|
    ensures var w := Window(matched, (k / limit) * limit, limit);
      k % limit < |w| && w[k % limit] == matched[k]
  {
    var skip := (k / limit) * limit;
    assert skip + k % limit == k;
    var w := Window(matched, skip, limit);
    assert |w| == Min(limit, |matched| - skip);
  }

  /** The reported total counts every matching record of the store. */
  lemma SelectCount(store: map<Id, Laptop>, natural: seq<Id>, q: LaptopQuery)
    requires Distinct(natural) && forall id :: id in store <==> id in natural
    ensures |Select(store, natural, q)| == |set id: Id | id in store && Matches(store[id], q)|
  {
    var matched := Select(store, natural, q);
    var selected := set id: Id | id in store && Matches(store[id], q);
    var listed := set id: Id | id in matched;
    assert forall x :: x in selected <==> x in matched;
    assert selected == listed;
    DistinctCardinality(matched);
  }


  /** With a positive limit, the `k`-th matching record (from 0) is on page
      `k / limit + 1`, which is within the reported page count. */
  lemma EveryMatchIsOnSomePage(total: nat, limit: int, k: nat)
    requires limit > 0 && k < total
    ensures var p := k / limit + 1;
      && 1 <= p <= CeilDiv(total, limit)
      && (p - 1) * limit <= k < (p - 1) * limit + limit
  {
    var c := CeilDiv(total, limit);
    DivAtMost(total as real, limit as real, c as real);
    assert (c as real) * (limit as real) == (c * limit) as real;
    assert (k / limit) * limit <= k < c * limit;
    ProductCancel(k / limit, c, limit);
  }

  lemma ProductCancel(a: int, b: int, m: int)
    requires m > 0 && a * m < b * m
    ensures a < b
  {
  }
}
