/** The mappers of the persistence adapter: entity trees read back as domain products,
    domain variants written as entities on update, a create DTO built into a new entity
    tree, and the ids the storage assigns when that tree is saved. */
module RepositoryMappers {
  import opened Wrappers
  import opened Domain
  import opened Entities

  // ---------------------------------------------------------------------------
  // Read mappers: entity -> domain

  function ToImage(e: ImageEntity): Image {
    Image(e.id, e.base64Data)
  }

  function ImagesOf(es: seq<ImageEntity>): (r: seq<Image>)
    ensures |r| == |es|
    ensures forall j {:trigger r[j]} :: 0 <= j < |es| ==> r[j] == ToImage(es[j])
  {
    if es == [] then [] else [ToImage(es[0])] + ImagesOf(es[1..])
  }

  /** mapToProductImages: a null list becomes an empty one, otherwise one image per entity, in order. */
  function ToImages(l: Option<seq<ImageEntity>>): (r: seq<Image>)
    ensures l.None? ==> r == []
    ensures l.Some? ==> |r| == |l.value|
    ensures l.Some? ==> forall j {:trigger r[j]} :: 0 <= j < |r| ==> r[j].id == l.value[j].id && r[j].base64Data == l.value[j].base64Data
  {
    ImagesOf(Elems(l))
  }

  function ToVariant(e: VariantEntity): Variant {
    Variant(e.id, e.price, e.stock, e.color, e.size, ToImages(e.images))
  }

  function VariantsOf(es: seq<VariantEntity>): (r: seq<Variant>)
    ensures |r| == |es|
    ensures forall k {:trigger r[k]} :: 0 <= k < |es| ==> r[k] == ToVariant(es[k])
  {
    if es == [] then [] else [ToVariant(es[0])] + VariantsOf(es[1..])
  }

  /** mapToProductVariants: a null list becomes an empty one, otherwise one variant per entity,
      in order, with every scalar field copied. */
  function ToVariants(l: Option<seq<VariantEntity>>): (r: seq<Variant>)
    ensures l.None? ==> r == []
    ensures l.Some? ==> |r| == |l.value|
    ensures l.Some? ==> forall k {:trigger r[k]} :: 0 <= k < |r| ==>
      var e := l.value[k];
      r[k].id == e.id && r[k].price == e.price && r[k].stock == e.stock && r[k].color == e.color
      && r[k].size == e.size && r[k].images == ToImages(e.images)
  {
    VariantsOf(Elems(l))
  }

  /** mapToProduct. */
  function ToProduct(e: ProductEntity): Product {
    Product(e.id, e.name, e.description, e.season, ToVariants(e.variants))
  }

  // ---------------------------------------------------------------------------
  // Write mappers used by update: domain -> entity, ids copied

  function ImageEntitiesOf(imgs: seq<Image>): (r: seq<ImageEntity>)
    ensures |r| == |imgs|
    ensures forall j {:trigger r[j]} :: 0 <= j < |imgs| ==> r[j] == ImageEntity(imgs[j].id, imgs[j].base64Data)
  {
    if imgs == [] then [] else [ImageEntity(imgs[0].id, imgs[0].base64Data)] + ImageEntitiesOf(imgs[1..])
  }

  function VariantEntitiesOf(vs: seq<Variant>): (r: seq<VariantEntity>)
    ensures |r| == |vs|
    ensures forall k {:trigger r[k]} :: 0 <= k < |vs| ==>
      r[k] == VariantEntity(vs[k].id, vs[k].price, vs[k].stock, vs[k].color, vs[k].size, Some(ImageEntitiesOf(vs[k].images)))
  {
    if vs == [] then []
    else
      var v := vs[0];
      [VariantEntity(v.id, v.price, v.stock, v.color, v.size, Some(ImageEntitiesOf(v.images)))] + VariantEntitiesOf(vs[1..])
  }

  /** Reading back what the update mappers wrote gives the images unchanged. */
  lemma {:induction false} ImagesRoundTrip(imgs: seq<Image>)
    ensures ToImages(Some(ImageEntitiesOf(imgs))) == imgs
  {
    var r := ToImages(Some(ImageEntitiesOf(imgs)));
    assert |r| == |imgs|;
    forall j | 0 <= j < |imgs| ensures r[j] == imgs[j] {}
  }

  /** Reading back what the update mappers wrote gives the variants unchanged, in order. */
  lemma {:induction false} VariantsRoundTrip(vs: seq<Variant>)
    ensures ToVariants(Some(VariantEntitiesOf(vs))) == vs
  {
    var r := ToVariants(Some(VariantEntitiesOf(vs)));
    forall k | 0 <= k < |vs| ensures r[k] == vs[k] {
      ImagesRoundTrip(vs[k].images);
    }
  }

  // ---------------------------------------------------------------------------
  // mapToProductEntity: the new, unsaved tree built from a create DTO

  /** The id of an entity the storage has not saved yet (a null Long). */
  const Unassigned: int := 0

  function NewImageEntities(base64s: seq<string>): (r: seq<ImageEntity>)
    ensures |r| == |base64s|
    ensures forall j {:trigger r[j]} :: 0 <= j < |base64s| ==> r[j] == ImageEntity(Unassigned, base64s[j])
  {
    if base64s == [] then [] else [ImageEntity(Unassigned, base64s[0])] + NewImageEntities(base64s[1..])
  }

  function NewVariantEntity(d: VariantCreateDto): VariantEntity {
    VariantEntity(Unassigned, d.price, d.stock, d.color, d.size, Some(NewImageEntities(d.base64Images)))
  }

  function NewVariantEntities(ds: seq<VariantCreateDto>): (r: seq<VariantEntity>)
    ensures |r| == |ds|
  {
    if ds == [] then [] else [NewVariantEntity(ds[0])] + NewVariantEntities(ds[1..])
  }

  function NewProductEntity(dto: ProductCreateDto): ProductEntity {
    ProductEntity(Unassigned, dto.name, dto.description, dto.season, Some(NewVariantEntities(dto.variants)))
  }

  // ---------------------------------------------------------------------------
  // Saving a new tree: the storage gives every node an id. Ids come from one counter,
  // handed out in preorder (product, then each variant followed by its images).

  function NumberImages(es: seq<ImageEntity>, next: int): (r: seq<ImageEntity>)
    ensures |r| == |es|
    ensures forall j {:trigger r[j]} :: 0 <= j < |es| ==> r[j] == es[j].(id := next + j)
  {
    if es == [] then [] else [es[0].(id := next)] + NumberImages(es[1..], next + 1)
  }

  function NumberImageList(l: Option<seq<ImageEntity>>, next: int): Option<seq<ImageEntity>> {
    match l
    case None => None
    case Some(es) => Some(NumberImages(es, next))
  }

  /** How many ids a list of unsaved variants consumes. */
  function Span(vs: seq<VariantEntity>): nat {
    if vs == [] then 0 else 1 + |Elems(vs[0].images)| + Span(vs[1..])
  }

  function NumberVariants(vs: seq<VariantEntity>, next: int): (r: seq<VariantEntity>)
    ensures |r| == |vs|
  {
    if vs == [] then []
    else
      [vs[0].(id := next, images := NumberImageList(vs[0].images, next + 1))]
      + NumberVariants(vs[1..], next + 1 + |Elems(vs[0].images)|)
  }

  datatype Saved = Saved(entity: ProductEntity, nextId: int)

  /** productRepository.save of a new tree, starting from the id `next`. */
  function Persist(e: ProductEntity, next: int): Saved {
    var vs := Elems(e.variants);
    var numbered := match e.variants
      case None => None
      case Some(_) => Some(NumberVariants(vs, next + 1));
    Saved(e.(id := next, variants := numbered), next + 1 + Span(vs))
  }

  // ---------------------------------------------------------------------------
  // The ids of a product tree, in preorder

  function ImageIds(imgs: seq<Image>): (r: seq<int>)
    ensures |r| == |imgs|
    ensures forall j {:trigger r[j]} :: 0 <= j < |imgs| ==> r[j] == imgs[j].id
  {
    if imgs == [] then [] else [imgs[0].id] + ImageIds(imgs[1..])
  }

  function VariantIds(vs: seq<Variant>): seq<int> {
    if vs == [] then [] else [vs[0].id] + ImageIds(vs[0].images) + VariantIds(vs[1..])
  }

  function ProductIds(p: Product): seq<int> {
    [p.id] + VariantIds(p.variants)
  }

  /** The consecutive ids lo, lo + 1, ..., hi - 1. */
  function Range(lo: int, hi: int): (r: seq<int>)
    requires lo <= hi
    ensures |r| == hi - lo
    ensures forall i :: 0 <= i < |r| ==> r[i] == lo + i
  {
    seq(hi - lo, i => lo + i)
  }

  // ---------------------------------------------------------------------------
  // What a saved create DTO reads back as

  /** A domain variant carries exactly the content of a create-DTO variant: same price,
      stock, colour and size, and one image per base64 string, in order. */
  ghost predicate VariantMatches(d: VariantCreateDto, v: Variant) {
    && v.price == d.price && v.stock == d.stock && v.color == d.color && v.size == d.size
    && |v.images| == |d.base64Images|
    && forall j :: 0 <= j < |v.images| ==> v.images[j].base64Data == d.base64Images[j]
  }

  /** A domain product carries exactly the content of a create DTO, variants in order. */
  ghost predicate Matches(dto: ProductCreateDto, p: Product) {
    && p.name == dto.name && p.description == dto.description && p.season == dto.season
    && AllMatch(dto.variants, p.variants)
  }

  /** How many ids a list of DTO variants consumes when saved. */
  function DtoSpan(ds: seq<VariantCreateDto>): nat {
    if ds == [] then 0 else 1 + |ds[0].base64Images| + DtoSpan(ds[1..])
  }

  /** The images a list of base64 strings reads back as once saved, numbered from `next`. */
  function SavedImages(b: seq<string>, next: int): seq<Image> {
    if b == [] then [] else [Image(next, b[0])] + SavedImages(b[1..], next + 1)
  }

  /** The variant a saved DTO variant reads back as, when its id is `next`: its own
      content, and its images numbered after it. */
  function SavedVariant(d: VariantCreateDto, next: int): Variant {
    Variant(next, d.price, d.stock, d.color, d.size, SavedImages(d.base64Images, next + 1))
  }

  /** The entity of a DTO variant once saved with the id `next`, its images numbered after it. */
  function SavedVariantEntity(d: VariantCreateDto, next: int): VariantEntity {
    var e := NewVariantEntity(d);
    e.(id := next, images := NumberImageList(e.images, next + 1))
  }

  /** The variants a saved list of DTO variants reads back as, numbered from `next`: each
      variant takes the next free id and its images the ids after it. */
  function SavedVariants(ds: seq<VariantCreateDto>, next: int): seq<Variant> {
    if ds == [] then []
    else [SavedVariant(ds[0], next)] + SavedVariants(ds[1..], next + 1 + |ds[0].base64Images|)
  }

  /** The saved images are one per base64 string, in order, with consecutive ids. */
  lemma {:induction false} SavedImagesAt(b: seq<string>, next: int)
    ensures |SavedImages(b, next)| == |b|
    ensures forall j :: 0 <= j < |b| ==> SavedImages(b, next)[j] == Image(next + j, b[j])
  {
    if b != [] {
      SavedImagesAt(b[1..], next + 1);
      forall j | 0 <= j < |b| ensures SavedImages(b, next)[j] == Image(next + j, b[j]) {
        if j > 0 {
          assert SavedImages(b, next)[j] == SavedImages(b[1..], next + 1)[j - 1];
        }
      }
    }
  }

  /** Numbering the new image entities and reading them back gives the saved images. */
  lemma {:induction false} ReadBackImages(b: seq<string>, next: int)
    ensures ToImages(NumberImageList(Some(NewImageEntities(b)), next)) == SavedImages(b, next)
  {
    var r := ToImages(NumberImageList(Some(NewImageEntities(b)), next));
    SavedImagesAt(b, next);
    forall j | 0 <= j < |b| ensures r[j] == SavedImages(b, next)[j] {
    }
  }

  /** Saving a DTO variant's new entity with the id `next` reads back as the saved variant. */
  lemma {:induction false} ReadBackVariant(d: VariantCreateDto, next: int)
    ensures ToVariant(SavedVariantEntity(d, next)) == SavedVariant(d, next)
  {
    ReadBackImages(d.base64Images, next + 1);
  }

  lemma {:induction false} SavedVariantContent(d: VariantCreateDto, next: int)
    ensures VariantMatches(d, SavedVariant(d, next))
  {
    SavedImagesAt(d.base64Images, next + 1);
  }

  lemma {:induction false} ImageIdsCons(x: Image, xs: seq<Image>)
    ensures ImageIds([x] + xs) == [x.id] + ImageIds(xs)
  {
    assert ([x] + xs)[1..] == xs;
  }

  /** The saved images' ids are consecutive from `next`. */
  lemma {:induction false} SavedImagesIds(b: seq<string>, next: int)
    ensures ImageIds(SavedImages(b, next)) == Range(next, next + |b|)
  {
    if b != [] {
      ImageIdsCons(Image(next, b[0]), SavedImages(b[1..], next + 1));
      SavedImagesIds(b[1..], next + 1);
      RangeHead(next, next + |b|, ImageIds(SavedImages(b[1..], next + 1)));
    }
  }

  lemma {:induction false} VariantsOfCons(x: VariantEntity, xs: seq<VariantEntity>)
    ensures VariantsOf([x] + xs) == [ToVariant(x)] + VariantsOf(xs)
  {
    assert ([x] + xs)[1..] == xs;
  }

  lemma {:induction false} NewVariantEntitiesCons(ds: seq<VariantCreateDto>)
    requires ds != []
    ensures NewVariantEntities(ds)[0] == NewVariantEntity(ds[0])
    ensures NewVariantEntities(ds)[1..] == NewVariantEntities(ds[1..])
  {
  }

  lemma {:induction false} NewVariantImageCount(d: VariantCreateDto)
    ensures |Elems(NewVariantEntity(d).images)| == |d.base64Images|
  {
  }

  lemma {:induction false} NumberVariantsUnfold(es: seq<VariantEntity>, next: int)
    requires es != []
    ensures NumberVariants(es, next)
      == [es[0].(id := next, images := NumberImageList(es[0].images, next + 1))]
         + NumberVariants(es[1..], next + 1 + |Elems(es[0].images)|)
  {
  }

  lemma {:induction false} NumberNewCons(ds: seq<VariantCreateDto>, next: int)
    requires ds != []
    ensures NumberVariants(NewVariantEntities(ds), next)
      == [SavedVariantEntity(ds[0], next)] + NumberVariants(NewVariantEntities(ds[1..]), next + 1 + |ds[0].base64Images|)
  {
    NumberVariantsUnfold(NewVariantEntities(ds), next);
    NewVariantEntitiesCons(ds);
    NewVariantImageCount(ds[0]);
  }

  /** Saving the entities built from a list of DTO variants and reading them back gives
      the saved variants. */
  lemma {:induction false} ReadBackSaved(ds: seq<VariantCreateDto>, next: int)
    ensures VariantsOf(NumberVariants(NewVariantEntities(ds), next)) == SavedVariants(ds, next)
  {
    if ds != [] {
      var n' := next + 1 + |ds[0].base64Images|;
      NumberNewCons(ds, next);
      ReadBackVariant(ds[0], next);
      VariantsOfCons(SavedVariantEntity(ds[0], next), NumberVariants(NewVariantEntities(ds[1..]), n'));
      ReadBackSaved(ds[1..], n');
    }
  }

  lemma {:induction false} SpanOfNew(ds: seq<VariantCreateDto>)
    ensures Span(NewVariantEntities(ds)) == DtoSpan(ds)
  {
    if ds != [] {
      NewVariantEntitiesCons(ds);
      NewVariantImageCount(ds[0]);
      SpanOfNew(ds[1..]);
    }
  }

  /** Variant lists that match DTO variant lists pointwise. */
  ghost predicate AllMatch(ds: seq<VariantCreateDto>, vs: seq<Variant>) {
    |vs| == |ds| && forall k :: 0 <= k < |ds| ==> VariantMatches(ds[k], vs[k])
  }

  /** Variants that match DTO variants pointwise still do with one more pair in front. */
  lemma {:induction false} MatchCons(ds: seq<VariantCreateDto>, v: Variant, vs: seq<Variant>)
    requires ds != [] && VariantMatches(ds[0], v) && AllMatch(ds[1..], vs)
    ensures AllMatch(ds, [v] + vs)
  {
    forall k | 0 <= k < |ds| ensures VariantMatches(ds[k], ([v] + vs)[k]) {
      if k > 0 {
        assert ds[k] == ds[1..][k - 1] && ([v] + vs)[k] == vs[k - 1];
      }
    }
  }

  lemma {:induction false} SavedVariantsContent(ds: seq<VariantCreateDto>, next: int)
    ensures AllMatch(ds, SavedVariants(ds, next))
  {
    if ds != [] {
      var n' := next + 1 + |ds[0].base64Images|;
      SavedVariantsContent(ds[1..], n');
      SavedVariantContent(ds[0], next);
      MatchCons(ds, SavedVariant(ds[0], next), SavedVariants(ds[1..], n'));
    }
  }

  lemma {:induction false} RangeCons(lo: int, mid: int, hi: int, a: seq<int>, b: seq<int>)
    requires lo < mid <= hi && a == Range(lo + 1, mid) && b == Range(mid, hi)
    ensures [lo] + a + b == Range(lo, hi)
  {
  }

  lemma {:induction false} RangeHead(lo: int, hi: int, b: seq<int>)
    requires lo < hi && b == Range(lo + 1, hi)
    ensures [lo] + b == Range(lo, hi)
  {
  }

  lemma {:induction false} VariantIdsCons(v: Variant, vs: seq<Variant>)
    ensures VariantIds([v] + vs) == [v.id] + ImageIds(v.images) + VariantIds(vs)
  {
    assert ([v] + vs)[0] == v && ([v] + vs)[1..] == vs;
  }

  lemma {:induction false} SavedVariantsIds(ds: seq<VariantCreateDto>, next: int)
    ensures VariantIds(SavedVariants(ds, next)) == Range(next, next + DtoSpan(ds))
  {
    if ds == [] {
      assert DtoSpan(ds) == 0 && |Range(next, next)| == 0;
    } else {
      var n' := next + 1 + |ds[0].base64Images|;
      var v := SavedVariant(ds[0], next);
      var tail := SavedVariants(ds[1..], n');
      SavedImagesIds(ds[0].base64Images, next + 1);
      VariantIdsCons(v, tail);
      SavedVariantsIds(ds[1..], n');
      RangeCons(next, n', n' + DtoSpan(ds[1..]), ImageIds(v.images), VariantIds(tail));
    }
  }

  /** The product a saved create DTO reads back as, when its id is `next`. */
  function SavedProduct(dto: ProductCreateDto, next: int): Product {
    Product(next, dto.name, dto.description, dto.season, SavedVariants(dto.variants, next + 1))
  }

  lemma {:induction false} SavedProductContent(dto: ProductCreateDto, next: int)
    ensures Matches(dto, SavedProduct(dto, next))
  {
    SavedVariantsContent(dto.variants, next + 1);
  }

  lemma {:induction false} SavedProductIds(dto: ProductCreateDto, next: int)
    ensures ProductIds(SavedProduct(dto, next)) == Range(next, next + 1 + DtoSpan(dto.variants))
  {
    SavedVariantsIds(dto.variants, next + 1);
    RangeHead(next, next + 1 + DtoSpan(dto.variants), VariantIds(SavedVariants(dto.variants, next + 1)));
  }

  /** What create returns: the DTO's name, description and season, one variant per DTO
      variant in order with the same price, stock, colour and size, one image per base64
      string in order; and every node of the tree has a fresh id, the ids being exactly
      next, next + 1, ... in preorder, up to the new value of the counter. */
  lemma {:induction false} SavedTree(dto: ProductCreateDto, next: int)
    ensures var saved := Persist(NewProductEntity(dto), next);
      && Matches(dto, ToProduct(saved.entity))
      && saved.nextId > next
      && ProductIds(ToProduct(saved.entity)) == Range(next, saved.nextId)
  {
    PersistNew(dto, next);
    SavedProductContent(dto, next);
    SavedProductIds(dto, next);
  }

  lemma {:induction false} PersistNew(dto: ProductCreateDto, next: int)
    ensures var saved := Persist(NewProductEntity(dto), next);
      && ToProduct(saved.entity) == SavedProduct(dto, next)
      && saved.nextId == next + 1 + DtoSpan(dto.variants)
  {
    SpanOfNew(dto.variants);
    ReadBackSaved(dto.variants, next + 1);
  }
}
