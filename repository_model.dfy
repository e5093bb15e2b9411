/** The persistence adapter's behaviour on a value of the store: the products table as a
    map from product id to the product's entity tree, and the counter the storage takes
    fresh ids from. Each operation of the adapter is a function from the old store to
    the new store and the operation's result; the lemmas state what those results and
    new stores are. */
module RepositoryModel {
  import opened Wrappers
  import opened Domain
  import opened Entities
  import opened RepositoryMappers

  datatype StoreState = StoreState(products: map<int, ProductEntity>, nextId: int)

  /** What the storage guarantees of its contents: every product is keyed by its own id,
      which is positive and below the id counter, and a loaded product's variant list is
      never null. */
  ghost predicate Valid(st: StoreState) {
    && st.nextId > 0
    && forall id :: id in st.products ==>
         0 < id < st.nextId && st.products[id].id == id && st.products[id].variants.Some?
  }

  /** The store after an operation, and what the operation returned. */
  datatype Step<T> = Step(state: StoreState, result: T)

  // ---------------------------------------------------------------------------
  // findById

  function FindById(st: StoreState, id: int): Result<Product, RepoError> {
    if id in st.products then Success(ToProduct(st.products[id])) else Failure(ProductNotFound(id))
  }

  // ---------------------------------------------------------------------------
  // findAll: every stored product, in increasing id order

  lemma {:induction false} MinExists(xs: set<int>)
    requires xs != {}
    ensures exists m :: m in xs && forall x :: x in xs ==> m <= x
  {
    if forall z :: z !in xs {
      assert false;
    }
    var y :| y in xs;
    if xs != {y} {
      var rest := xs - {y};
      MinExists(rest);
      var m :| m in rest && forall x :: x in rest ==> m <= x;
      var least := if y < m then y else m;
      forall x | x in xs ensures least <= x {
        if x != y { assert x in rest; }
      }
      assert least in xs;
    } else {
      assert forall x :: x in xs ==> y <= x;
    }
  }

  function Min(xs: set<int>): (m: int)
    requires xs != {}
    ensures m in xs && forall x :: x in xs ==> m <= x
  {
    MinExists(xs);
    var m :| m in xs && forall x :: x in xs ==> m <= x;
    m
  }

  /** The elements of a finite set of ids, in strictly increasing order. */
  function SortedIds(xs: set<int>): (r: seq<int>)
    ensures |r| == |xs|
    ensures forall i :: 0 <= i < |r| ==> r[i] in xs
    decreases xs
  {
    if xs == {} then []
    else
      var m := Min(xs);
      [m] + SortedIds(xs - {m})
  }

  /** SortedIds lists every element of the set. */
  lemma {:induction false} SortedIdsComplete(xs: set<int>)
    ensures forall x :: x in xs ==> x in SortedIds(xs)
    decreases xs
  {
    if xs != {} {
      var m := Min(xs);
      var rest := SortedIds(xs - {m});
      SortedIdsComplete(xs - {m});
      assert SortedIds(xs) == [m] + rest;
    }
  }

  /** SortedIds lists the elements of the set in strictly increasing order. */
  lemma {:induction false} SortedIdsIncreasing(xs: set<int>)
    ensures forall i, j :: 0 <= i < j < |SortedIds(xs)| ==> SortedIds(xs)[i] < SortedIds(xs)[j]
    decreases xs
  {
    if xs != {} {
      var m := Min(xs);
      var rest := SortedIds(xs - {m});
      SortedIdsIncreasing(xs - {m});
      var r := SortedIds(xs);
      assert r == [m] + rest;
      forall i, j | 0 <= i < j < |r| ensures r[i] < r[j] {
        assert r[j] == rest[j - 1] && rest[j - 1] in xs - {m};
        if i > 0 {
          assert r[i] == rest[i - 1] && rest[i - 1] < rest[j - 1];
        } else {
          assert r[i] == m && r[j] in xs && r[j] != m;
          assert m <= r[j];
        }
      }
    }
  }

  function FindAll(st: StoreState): seq<Product> {
    var ids := SortedIds(st.products.Keys);
    seq(|ids|, i requires 0 <= i < |ids| => ToProduct(st.products[ids[i]]))
  }

  /** findAll's i-th product is the stored product with the i-th smallest id. */
  lemma {:induction false} FindAllAt(st: StoreState)
    requires Valid(st)
    ensures var r := FindAll(st); var ids := SortedIds(st.products.Keys);
      && |r| == |ids|
      && forall i :: 0 <= i < |r| ==> r[i].id == ids[i] && r[i] == ToProduct(st.products[ids[i]])
  {
  }

  /** findAll lists every stored product exactly once, read back as a domain product, in
      increasing id order, and nothing else. */
  lemma {:induction false} FindAllContents(st: StoreState)
    requires Valid(st)
    ensures var r := FindAll(st);
      && |r| == |st.products|
      && (forall i :: 0 <= i < |r| ==> r[i].id in st.products && r[i] == ToProduct(st.products[r[i].id]))
      && (forall i, j :: 0 <= i < j < |r| ==> r[i].id < r[j].id)
      && (forall id :: id in st.products ==> exists i :: 0 <= i < |r| && r[i].id == id)
  {
    var ids := SortedIds(st.products.Keys);
    SortedIdsComplete(st.products.Keys);
    SortedIdsIncreasing(st.products.Keys);
    FindAllAt(st);
    var r := FindAll(st);
    assert |st.products.Keys| == |st.products|;
    forall id | id in st.products ensures exists i :: 0 <= i < |r| && r[i].id == id {
      assert id in ids;
      var i :| 0 <= i < |ids| && ids[i] == id;
      assert r[i].id == id;
    }
  }

  // ---------------------------------------------------------------------------
  // create

  function Create(st: StoreState, dto: ProductCreateDto): Step<Product> {
    var saved := Persist(NewProductEntity(dto), st.nextId);
    Step(StoreState(st.products[st.nextId := saved.entity], saved.nextId), ToProduct(saved.entity))
  }

  /** create adds exactly one product, under a fresh id, leaving the others as they were;
      the stored tree reads back as the returned product, which carries the DTO's content
      and whose every node has a fresh, distinct, non-zero id (consecutive ids from the old
      counter, in preorder, up to the new counter). */
  lemma {:induction false} CreateSpec(st: StoreState, dto: ProductCreateDto)
    requires Valid(st)
    ensures var s := Create(st, dto); var p := s.result;
      && Valid(s.state)
      && p.id !in st.products && p.id != 0
      && s.state.products.Keys == st.products.Keys + {p.id}
      && (forall id :: id in st.products ==> s.state.products[id] == st.products[id])
      && FindById(s.state, p.id) == Success(p)
      && Matches(dto, p)
      && ProductIds(p) == Range(st.nextId, s.state.nextId)
  {
    SavedTree(dto, st.nextId);
    PersistNew(dto, st.nextId);
  }

  // ---------------------------------------------------------------------------
  // deleteById: a soft operation

  const ProductNotFoundMessage: string := "Product not found."
  const ProductDeletedMessage: string := "Product deleted successfully."

  function DeleteById(st: StoreState, id: int): Step<DeleteResult> {
    if id !in st.products then Step(st, DeleteResult(false, ProductNotFoundMessage))
    else Step(st.(products := st.products - {id}), DeleteResult(true, ProductDeletedMessage))
  }

  /** On a missing id delete reports failure and changes nothing; on a present one it
      removes that product's whole tree, reports success, leaves every other product as it
      was, and a later findById of that id fails not-found. */
  lemma {:induction false} DeleteSpec(st: StoreState, id: int)
    requires Valid(st)
    ensures var s := DeleteById(st, id);
      && Valid(s.state)
      && s.result.success == (id in st.products)
      && s.result.message == (if id in st.products then ProductDeletedMessage else ProductNotFoundMessage)
      && (id !in st.products ==> s.state == st)
      && s.state.products.Keys == st.products.Keys - {id}
      && (forall k :: k in s.state.products ==> s.state.products[k] == st.products[k])
      && FindById(s.state, id) == Failure(ProductNotFound(id))
  {
  }

  // ---------------------------------------------------------------------------
  // update: scalar fields overwritten, the variant list replaced wholesale

  /** The loaded entity after update's setters and its `clear()` + `addAll` of the variants. */
  function Replaced(e: ProductEntity, p: Product): ProductEntity {
    e.(name := p.name, description := p.description, season := p.season,
       variants := Some(VariantEntitiesOf(p.variants)))
  }

  function Update(st: StoreState, p: Product): Step<Result<Product, RepoError>> {
    if p.id !in st.products then Step(st, Failure(ProductNotFound(p.id)))
    else
      var e := Replaced(st.products[p.id], p);
      Step(st.(products := st.products[p.id := e]), Success(ToProduct(e)))
  }

  /** update of a missing id fails not-found and changes nothing. Of a present one it
      returns exactly the incoming product and stores it: name, description and season
      are the incoming ones and the variant list is exactly the incoming list, in order,
      with every field and image copied; no other product changes. */
  lemma {:induction false} UpdateSpec(st: StoreState, p: Product)
    requires Valid(st)
    ensures var s := Update(st, p);
      && Valid(s.state)
      && (p.id !in st.products ==> s == Step(st, Failure(ProductNotFound(p.id))))
      && (p.id in st.products ==>
            && s.result == Success(p)
            && FindById(s.state, p.id) == Success(p)
            && s.state.products.Keys == st.products.Keys
            && (forall k :: k in st.products && k != p.id ==> s.state.products[k] == st.products[k]))
  {
    if p.id in st.products {
      VariantsRoundTrip(p.variants);
    }
  }

  /** Replace-on-update: a variant id the incoming product does not carry is no longer
      among the product's stored variants, whatever was stored before. */
  lemma {:induction false} UpdateDropsOmitted(st: StoreState, p: Product, vid: int)
    requires Valid(st) && p.id in st.products
    requires forall v :: v in p.variants ==> v.id != vid
    ensures forall v :: v in Elems(Update(st, p).state.products[p.id].variants) ==> v.id != vid
  {
    var vs := VariantEntitiesOf(p.variants);
    forall v | v in vs ensures v.id != vid {
      var k :| 0 <= k < |vs| && vs[k] == v;
      assert p.variants[k] in p.variants;
    }
  }

  /** Applying the same update twice leaves the same store and result as applying it once. */
  lemma {:induction false} UpdateIdempotent(st: StoreState, p: Product)
    ensures var once := Update(st, p);
      Update(once.state, p) == once
  {
  }

  // ---------------------------------------------------------------------------
  // decreaseStock

  /** The position of the first variant with the given id. */
  function VariantIndex(vs: seq<VariantEntity>, vid: int): (r: Option<nat>)
    ensures r.Some? ==> r.value < |vs| && vs[r.value].id == vid
    ensures r.Some? ==> forall j :: 0 <= j < r.value ==> vs[j].id != vid
    ensures r.None? <==> forall j :: 0 <= j < |vs| ==> vs[j].id != vid
  {
    if vs == [] then None
    else if vs[0].id == vid then Some(0)
    else match VariantIndex(vs[1..], vid)
      case None => None
      case Some(j) => Some(j + 1)
  }

  /** The products holding a variant with this id. */
  function Owners(st: StoreState, vid: int): set<int> {
    set id | id in st.products && VariantIndex(Elems(st.products[id].variants), vid).Some?
  }

  /** The product whose variant `productVariantRepository.findById(vid)` loads: in a store
      where several products hold a variant with that id, the one with the smallest id. */
  function LocateVariant(st: StoreState, vid: int): (r: Option<int>)
    ensures r.None? <==> Owners(st, vid) == {}
    ensures r.Some? ==> r.value in Owners(st, vid)
    ensures r.Some? ==> r.value in st.products && VariantIndex(Elems(st.products[r.value].variants), vid).Some?
  {
    var owners := Owners(st, vid);
    if owners == {} then None else Some(Min(owners))
  }

  /** The entity with the variant at position i given stock s. */
  function WithStock(e: ProductEntity, i: nat, s: int): ProductEntity
    requires i < |Elems(e.variants)|
  {
    var vs := Elems(e.variants);
    e.(variants := Some(vs[i := vs[i].(stock := s)]))
  }

  function DecreaseStock(st: StoreState, vid: int, quantity: int): Step<Result<Product, RepoError>> {
    match LocateVariant(st, vid)
    case None => Step(st, Failure(VariantNotFound(vid)))
    case Some(pid) => DecreaseIn(st, pid, vid, quantity)
  }

  /** decreaseStock once the variant is found in the product `pid`: the stock check, then
      the save of the product with the lowered stock. */
  function DecreaseIn(st: StoreState, pid: int, vid: int, quantity: int): Step<Result<Product, RepoError>>
    requires pid in st.products && VariantIndex(Elems(st.products[pid].variants), vid).Some?
  {
    var e := st.products[pid];
    var i := VariantIndex(Elems(e.variants), vid).value;
    var v := Elems(e.variants)[i];
    if v.stock < quantity then Step(st, Failure(InsufficientStock(vid)))
    else
      var e' := WithStock(e, i, v.stock - quantity);
      Step(st.(products := st.products[pid := e']), Success(ToProduct(e')))
  }

  /** The lookup fails exactly when no stored product holds a variant with the id; when it
      succeeds it picks a product that does, the one with the smallest id. */
  lemma {:induction false} LocateVariantSpec(st: StoreState, vid: int)
    ensures LocateVariant(st, vid).None? <==>
      forall id, v :: id in st.products && v in Elems(st.products[id].variants) ==> v.id != vid
    ensures LocateVariant(st, vid).Some? ==>
      var pid := LocateVariant(st, vid).value;
      && pid in st.products
      && VariantIndex(Elems(st.products[pid].variants), vid).Some?
      && forall id :: id in Owners(st, vid) ==> pid <= id
  {
    if LocateVariant(st, vid).None? {
      forall id, v | id in st.products && v in Elems(st.products[id].variants) ensures v.id != vid {
        assert id !in Owners(st, vid);
        var vs := Elems(st.products[id].variants);
        var j :| 0 <= j < |vs| && vs[j] == v;
      }
    } else {
      var pid := LocateVariant(st, vid).value;
      var vs := Elems(st.products[pid].variants);
      var i := VariantIndex(vs, vid).value;
      assert vs[i] in vs;
    }
  }

  /** decreaseStock of a variant id no stored product holds fails not-found and changes nothing. */
  lemma {:induction false} DecreaseStockNotFound(st: StoreState, vid: int, quantity: int)
    requires forall id, v :: id in st.products && v in Elems(st.products[id].variants) ==> v.id != vid
    ensures DecreaseStock(st, vid, quantity) == Step(st, Failure(VariantNotFound(vid)))
  {
    LocateVariantSpec(st, vid);
  }

  /** decreaseStock, whatever its outcome, keeps the store valid. */
  lemma {:induction false} DecreaseStockValid(st: StoreState, vid: int, quantity: int)
    requires Valid(st)
    ensures Valid(DecreaseStock(st, vid, quantity).state)
  {
    var owner := LocateVariant(st, vid);
    if owner.Some? {
      DecreaseInValid(st, owner.value, vid, quantity);
    }
  }

  lemma {:induction false} DecreaseInValid(st: StoreState, pid: int, vid: int, quantity: int)
    requires Valid(st)
    requires pid in st.products && VariantIndex(Elems(st.products[pid].variants), vid).Some?
    ensures Valid(DecreaseIn(st, pid, vid, quantity).state)
  {
    var s := DecreaseIn(st, pid, vid, quantity);
    var vs := Elems(st.products[pid].variants);
    var i := VariantIndex(vs, vid).value;
    if vs[i].stock < quantity {
      assert s.state == st;
    } else {
      var e := WithStock(st.products[pid], i, vs[i].stock - quantity);
      assert s.state == st.(products := st.products[pid := e]);
      PutKeepsValid(st, pid, e);
    }
  }

  /** Replacing a stored product by an entity with the same id and a non-null variant list
      keeps the store valid. */
  lemma {:induction false} PutKeepsValid(st: StoreState, id: int, e: ProductEntity)
    requires Valid(st) && id in st.products && e.id == id && e.variants.Some?
    ensures Valid(st.(products := st.products[id := e]))
  {
  }

  /** The stock of the variant decreaseStock acts on. */
  function LocatedStock(st: StoreState, vid: int): int
    requires LocateVariant(st, vid).Some?
  {
    var pid := LocateVariant(st, vid).value;
    var vs := Elems(st.products[pid].variants);
    vs[VariantIndex(vs, vid).value].stock
  }

  /** decreaseStock of a found variant whose stock is below the quantity fails
      insufficient-stock and changes nothing. */
  lemma {:induction false} DecreaseStockInsufficient(st: StoreState, vid: int, quantity: int)
    requires LocateVariant(st, vid).Some? && LocatedStock(st, vid) < quantity
    ensures DecreaseStock(st, vid, quantity) == Step(st, Failure(InsufficientStock(vid)))
  {
  }

  /** decreaseStock of a found variant with enough stock: its stock becomes stock - quantity,
      which is not negative; no other variant of that product and no other product
      changes; the owning product, as now stored, is returned. */
  lemma {:induction false} DecreaseStockSucceeds(st: StoreState, vid: int, quantity: int)
    requires Valid(st)
    requires LocateVariant(st, vid).Some? && LocatedStock(st, vid) >= quantity
    ensures var s := DecreaseStock(st, vid, quantity);
      var pid := LocateVariant(st, vid).value;
      var vs := Elems(st.products[pid].variants);
      var i := VariantIndex(vs, vid).value;
      var vs' := Elems(s.state.products[pid].variants);
      && Valid(s.state)
      && s.state.nextId == st.nextId
      && s.state.products.Keys == st.products.Keys
      && (forall k :: k in st.products && k != pid ==> s.state.products[k] == st.products[k])
      && |vs'| == |vs|
      && vs'[i] == vs[i].(stock := vs[i].stock - quantity)
      && vs'[i].stock >= 0
      && (forall j :: 0 <= j < |vs| && j != i ==> vs'[j] == vs[j])
      && s.result == FindById(s.state, pid)
  {
    LocateVariantSpec(st, vid);
  }

  /** The variant lookup depends on the variant ids only. */
  lemma {:induction false} VariantIndexSameIds(a: seq<VariantEntity>, b: seq<VariantEntity>, vid: int)
    requires |a| == |b| && forall j :: 0 <= j < |a| ==> a[j].id == b[j].id
    ensures VariantIndex(a, vid) == VariantIndex(b, vid)
  {
    var x, y := VariantIndex(a, vid), VariantIndex(b, vid);
    if x.Some? {
      assert b[x.value].id == vid;
    }
    if y.Some? {
      assert a[y.value].id == vid;
    }
  }

  /** A successful decreaseStock changes no variant id, so a second lookup of the same id
      finds the same variant, now with the lowered stock. */
  lemma {:induction false} DecreaseStockLocatesSame(st: StoreState, vid: int, quantity: int)
    requires Valid(st)
    requires LocateVariant(st, vid).Some? && LocatedStock(st, vid) >= quantity
    ensures var s := DecreaseStock(st, vid, quantity);
      && LocateVariant(s.state, vid) == LocateVariant(st, vid)
      && LocatedStock(s.state, vid) == LocatedStock(st, vid) - quantity
  {
    DecreaseStockSucceeds(st, vid, quantity);
    var s := DecreaseStock(st, vid, quantity);
    var pid := LocateVariant(st, vid).value;
    var vs := Elems(st.products[pid].variants);
    var vs' := Elems(s.state.products[pid].variants);
    VariantIndexSameIds(vs, vs', vid);
    forall id ensures id in Owners(s.state, vid) <==> id in Owners(st, vid) {
      if id in st.products && id != pid {
        assert s.state.products[id] == st.products[id];
      }
    }
    assert Owners(s.state, vid) == Owners(st, vid);
  }

  /** Decreases of one variant, applied one after the other, add up: a second decrease
      succeeds exactly when what the first left suffices, and then the stock has gone down
      by both quantities. */
  lemma {:induction false} TwoDecreases(st: StoreState, vid: int, q1: int, q2: int)
    requires Valid(st)
    requires LocateVariant(st, vid).Some? && LocatedStock(st, vid) >= q1
    ensures var s1 := DecreaseStock(st, vid, q1);
      var s2 := DecreaseStock(s1.state, vid, q2);
      && (s2.result.Success? <==> LocatedStock(st, vid) - q1 >= q2)
      && (s2.result.Success? ==> LocatedStock(s2.state, vid) == LocatedStock(st, vid) - q1 - q2)
      && (s2.result.Failure? ==> s2 == Step(s1.state, Failure(InsufficientStock(vid))))
  {
    var s1 := DecreaseStock(st, vid, q1);
    DecreaseStockValid(st, vid, q1);
    DecreaseStockLocatesSame(st, vid, q1);
    if LocatedStock(s1.state, vid) >= q2 {
      DecreaseStockSucceeds(s1.state, vid, q2);
      DecreaseStockLocatesSame(s1.state, vid, q2);
    } else {
      DecreaseStockInsufficient(s1.state, vid, q2);
    }
  }
}
