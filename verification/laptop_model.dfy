/** The catalog record (models/Laptop.js): its enums and bounds as a
    validity predicate checked at save, the defaults `Laptop.create` fills
    in, the `discountedPrice` virtual, `updateStock`, and the field-wise
    merge that `Object.assign(laptop, body)` performs. */
module LaptopModel {
  import opened Common

  const Manufacturers: seq<string> := ["Dell", "Lenovo", "HP", "Asus", "Acer", "Apple", "MSI", "Other"]
  const CategoryNames: seq<string> := ["Programming", "Engineering", "Gaming", "Business", "Student", "General"]

  /** A catalog entry. Required strings that are missing are "" (which
      `required` rejects); `price` and `addedBy` have no default and may be
      missing in a document that has not been validated. */
  datatype Laptop = Laptop(
    manufacturer: string,
    categories: seq<string>,
    images: seq<string>,
    name: string,
    processor: string,
    ram: string,
    storage: string,
    screen: string,
    additionalDetails: Option<string>,
    price: Option<real>,
    discount: real,
    inStock: bool,
    stockQuantity: int,
    addedBy: Option<Id>)

  /** The schema's validators for one document. */
  predicate LaptopValid(l: Laptop) {
    && l.manufacturer in Manufacturers
    && |l.categories| > 0
    && (forall i :: 0 <= i < |l.categories| ==> l.categories[i] in CategoryNames)
    && (forall i :: 0 <= i < |l.images| ==> |l.images[i]| > 0)
    && |l.name| > 0 && |l.processor| > 0 && |l.ram| > 0 && |l.storage| > 0 && |l.screen| > 0
    && l.price.Some? && l.price.value >= 0.0
    && 0.0 <= l.discount <= 100.0
    && l.stockQuantity >= 0
    && l.addedBy.Some?
  }

  /** `laptop.save()`: the document is stored as it is, or rejected. */
  function SaveLaptop(l: Laptop): (r: Result<Laptop>)
    ensures r.Ok? <==> LaptopValid(l)
    ensures r.Ok? ==> r.value == l
    ensures r.Err? ==> r.failure == BadRequest
  {
    if LaptopValid(l) then Ok(l) else Err(BadRequest)
  }

  /** A valid record names a listed manufacturer and at least one listed
      category. */
  lemma ValidLaptopEnums(l: Laptop)
    requires LaptopValid(l)
    ensures l.manufacturer in {"Dell", "Lenovo", "HP", "Asus", "Acer", "Apple", "MSI", "Other"}
    ensures |l.categories| >= 1
    ensures forall c :: c in l.categories ==>
      c in {"Programming", "Engineering", "Gaming", "Business", "Student", "General"}
  {
  }

  // ---------------------------------------------------------------------
  // Request payloads, creation defaults and merging
  // ---------------------------------------------------------------------

  /** The schema fields a request body may carry; `None` is an absent key. */
  datatype LaptopPayload = LaptopPayload(
    manufacturer: Option<string>,
    categories: Option<seq<string>>,
    images: Option<seq<string>>,
    name: Option<string>,
    processor: Option<string>,
    ram: Option<string>,
    storage: Option<string>,
    screen: Option<string>,
    additionalDetails: Option<string>,
    price: Option<real>,
    discount: Option<real>,
    inStock: Option<bool>,
    stockQuantity: Option<int>,
    addedBy: Option<Id>)

  const EmptyPayload: LaptopPayload :=
    LaptopPayload(None, None, None, None, None, None, None, None, None, None, None, None, None, None)

  /** The value a trimmed string field takes from the payload, or keeps. */
  function TrimmedOr(v: Option<string>, current: string): string {
    if v.Some? then Trim(v.value) else current
  }

  function Or<T>(v: Option<T>, current: T): T {
    if v.Some? then v.value else current
  }

  function OrSome<T>(v: Option<T>, current: Option<T>): Option<T> {
    if v.Some? then v else current
  }

  /** `Object.assign(laptop, body)` followed by the schema's `trim` setters:
      each field present in the payload is overwritten, every other field
      keeps its value. */
  function Merge(l: Laptop, p: LaptopPayload): (r: Laptop)
    ensures p.manufacturer.None? ==> r.manufacturer == l.manufacturer
    ensures p.manufacturer.Some? ==> r.manufacturer == Trim(p.manufacturer.value)
    ensures p.categories.None? ==> r.categories == l.categories
    ensures p.categories.Some? ==> r.categories == p.categories.value
    ensures p.images.None? ==> r.images == l.images
    ensures p.images.Some? ==> r.images == p.images.value
    ensures p.name.None? ==> r.name == l.name
    ensures p.name.Some? ==> r.name == Trim(p.name.value)
    ensures p.processor.None? ==> r.processor == l.processor
    ensures p.processor.Some? ==> r.processor == Trim(p.processor.value)
    ensures p.ram.None? ==> r.ram == l.ram
    ensures p.ram.Some? ==> r.ram == Trim(p.ram.value)
    ensures p.storage.None? ==> r.storage == l.storage
    ensures p.storage.Some? ==> r.storage == Trim(p.storage.value)
    ensures p.screen.None? ==> r.screen == l.screen
    ensures p.screen.Some? ==> r.screen == Trim(p.screen.value)
    ensures p.additionalDetails.None? ==> r.additionalDetails == l.additionalDetails
    ensures p.additionalDetails.Some? ==> r.additionalDetails == Some(Trim(p.additionalDetails.value))
    ensures p.price.None? ==> r.price == l.price
    ensures p.price.Some? ==> r.price == p.price
    ensures p.discount.None? ==> r.discount == l.discount
    ensures p.discount.Some? ==> r.discount == p.discount.value
    ensures p.inStock.None? ==> r.inStock == l.inStock
    ensures p.inStock.Some? ==> r.inStock == p.inStock.value
    ensures p.stockQuantity.None? ==> r.stockQuantity == l.stockQuantity
    ensures p.stockQuantity.Some? ==> r.stockQuantity == p.stockQuantity.value
    ensures p.addedBy.None? ==> r.addedBy == l.addedBy
    ensures p.addedBy.Some? ==> r.addedBy == p.addedBy
  {
    Laptop(
      manufacturer := TrimmedOr(p.manufacturer, l.manufacturer),
      categories := Or(p.categories, l.categories),
      images := Or(p.images, l.images),
      name := TrimmedOr(p.name, l.name),
      processor := TrimmedOr(p.processor, l.processor),
      ram := TrimmedOr(p.ram, l.ram),
      storage := TrimmedOr(p.storage, l.storage),
      screen := TrimmedOr(p.screen, l.screen),
      additionalDetails := if p.additionalDetails.Some? then Some(Trim(p.additionalDetails.value)) else l.additionalDetails,
      price := OrSome(p.price, l.price),
      discount := Or(p.discount, l.discount),
      inStock := Or(p.inStock, l.inStock),
      stockQuantity := Or(p.stockQuantity, l.stockQuantity),
      addedBy := OrSome(p.addedBy, l.addedBy))
  }

  /** The record every field of which is unset: what `Laptop.create`
      starts from, with the schema defaults (discount 0, in stock, quantity
      0). */
  const Blank: Laptop :=
    Laptop("", [], [], "", "", "", "", "", None, None, 0.0, true, 0, None)

  /** `Laptop.create(body)`: the defaults overlaid with the payload. */
  function NewLaptop(p: LaptopPayload): (l: Laptop)
    ensures p.discount.None? ==> l.discount == 0.0
    ensures p.inStock.None? ==> l.inStock
    ensures p.stockQuantity.None? ==> l.stockQuantity == 0
    ensures l.addedBy == p.addedBy && l.price == p.price
  {
    Merge(Blank, p)
  }

  /** Payload `q` laid over payload `p`: `q`'s keys win. */
  function Overlay(p: LaptopPayload, q: LaptopPayload): LaptopPayload {
    LaptopPayload(
      OrSome(q.manufacturer, p.manufacturer), OrSome(q.categories, p.categories),
      OrSome(q.images, p.images), OrSome(q.name, p.name), OrSome(q.processor, p.processor),
      OrSome(q.ram, p.ram), OrSome(q.storage, p.storage), OrSome(q.screen, p.screen),
      OrSome(q.additionalDetails, p.additionalDetails), OrSome(q.price, p.price),
      OrSome(q.discount, p.discount), OrSome(q.inStock, p.inStock),
      OrSome(q.stockQuantity, p.stockQuantity), OrSome(q.addedBy, p.addedBy))
  }

  /** An empty payload changes nothing. */
  lemma MergeEmpty(l: Laptop)
    ensures Merge(l, EmptyPayload) == l
  {
  }

  /** Two updates in a row are one update with the later payload laid over
      the earlier one. */
  lemma MergeCompose(l: Laptop, p: LaptopPayload, q: LaptopPayload)
    ensures Merge(Merge(l, p), q) == Merge(l, Overlay(p, q))
  {
  }

  /** Applying the same payload twice is applying it once. */
  lemma {:induction false} MergeIdempotent(l: Laptop, p: LaptopPayload)
    ensures Merge(Merge(l, p), p) == Merge(l, p)
  {
    MergeCompose(l, p, p);
    assert Overlay(p, p) == p;
  }

  // ---------------------------------------------------------------------
  // The discountedPrice virtual
  // ---------------------------------------------------------------------

  /** `discountedPrice`: the price itself when the discount is not
      positive, else the price less `discount` percent of it. */
  function DiscountedPrice(price: real, discount: real): real {
    if discount <= 0.0 then price else price - price * discount / 100.0
  }

  /** For a record within the schema's bounds the discounted price lies
      between 0 and the price, and a full discount makes it free. */
  lemma DiscountedPriceBounds(price: real, discount: real)
    requires price >= 0.0 && 0.0 <= discount <= 100.0
    ensures 0.0 <= DiscountedPrice(price, discount) <= price
    ensures discount == 100.0 ==> DiscountedPrice(price, discount) == 0.0
    ensures discount == 0.0 ==> DiscountedPrice(price, discount) == price
  {
    if discount > 0.0 {
      assert price * discount <= price * 100.0;
      assert price * discount >= 0.0;
    }
  }

  /** Agreement with the closed form `price * (1 - discount / 100)` for
      every non-negative discount. */
  lemma DiscountedPriceClosedForm(price: real, discount: real)
    requires discount >= 0.0
    ensures DiscountedPrice(price, discount) == price * (1.0 - discount / 100.0)
  {
  }

  /** A larger discount never raises the price. */
  lemma DiscountedPriceMonotone(price: real, d1: real, d2: real)
    requires price >= 0.0 && 0.0 <= d1 <= d2
    ensures DiscountedPrice(price, d2) <= DiscountedPrice(price, d1)
  {
    assert price * d1 <= price * d2;
  }

  lemma DiscountedPriceExample()
    ensures DiscountedPrice(1000.0, 10.0) == 900.0
  {
  }

  // ---------------------------------------------------------------------
  // updateStock
  // ---------------------------------------------------------------------

  /** The field updates of `updateStock(quantity)`, before the save. */
  function ApplyStock(l: Laptop, quantity: int): (r: Laptop)
    ensures r.stockQuantity == l.stockQuantity + quantity
    ensures r.inStock <==> r.stockQuantity > 0
    ensures r.(stockQuantity := l.stockQuantity, inStock := l.inStock) == l
  {
    var q := l.stockQuantity + quantity;
    l.(stockQuantity := q, inStock := q > 0)
  }

  /** `laptop.updateStock(quantity)`: adjust, then save. */
  function UpdateStock(l: Laptop, quantity: int): (r: Result<Laptop>)
    ensures r.Ok? ==> r.value == ApplyStock(l, quantity) && LaptopValid(r.value)
    ensures l.stockQuantity + quantity < 0 ==> r == Err(BadRequest)
  {
    SaveLaptop(ApplyStock(l, quantity))
  }

  /** Two stock updates add up. */
  lemma StockUpdatesAdd(l: Laptop, a: int, b: int)
    ensures ApplyStock(ApplyStock(l, a), b) == ApplyStock(l, a + b)
  {
  }

  /** A valid record stays valid under a stock update exactly when the
      quantity does not drop below zero. */
  lemma UpdateStockValidity(l: Laptop, quantity: int)
    requires LaptopValid(l)
    ensures UpdateStock(l, quantity).Ok? <==> l.stockQuantity + quantity >= 0
  {
  }

  /** The defaults themselves break `inStock <==> stockQuantity > 0`: a
      record created without stock fields is in stock with quantity 0. */
  lemma DefaultsBreakStockAgreement(p: LaptopPayload)
    requires p.inStock.None? && p.stockQuantity.None?
    ensures NewLaptop(p).inStock && NewLaptop(p).stockQuantity == 0
  {
  }
}
