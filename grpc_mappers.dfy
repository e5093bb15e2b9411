/** The inbound side of ProductGrpcController without its transport: the request and
    response messages, the field checks each handler runs before anything else, and the
    structural copies between messages and the domain model. */
module GrpcMappers {
  import opened Wrappers
  import opened Domain
  import Enums
  import JavaStrings

  // ---------------------------------------------------------------------------
  // Messages. Enumerations travel as their constant names.

  datatype GetProductByIdRequest = GetProductByIdRequest(id: int)
  datatype DeleteProductRequest = DeleteProductRequest(id: int)
  datatype DecreaseStockRequest = DecreaseStockRequest(productVariantId: int, quantity: int)

  datatype CreateVariantRequest =
    CreateVariantRequest(price: Price, stock: int, color: string, size: string, base64Images: seq<string>)
  datatype CreateProductRequest =
    CreateProductRequest(name: string, description: string, season: string, variants: seq<CreateVariantRequest>)

  datatype ImageRequest = ImageRequest(id: int, base64Data: string)
  datatype UpdateVariantRequest =
    UpdateVariantRequest(id: int, price: Price, stock: int, color: string, size: string, images: seq<ImageRequest>)
  datatype UpdateProductRequest =
    UpdateProductRequest(id: int, name: string, description: string, season: string, variants: seq<UpdateVariantRequest>)

  datatype ImageResponse = ImageResponse(id: int, base64Data: string)
  datatype VariantResponse =
    VariantResponse(id: int, price: Price, stock: int, color: string, size: string, images: seq<ImageResponse>)
  datatype ProductResponse =
    ProductResponse(id: int, name: string, description: string, season: string, variants: seq<VariantResponse>)
  datatype ProductListResponse = ProductListResponse(products: seq<ProductResponse>)
  datatype DeleteProductResponse = DeleteProductResponse(success: bool, message: string)

  // ---------------------------------------------------------------------------
  // Field checks: the message of the first IllegalArgumentException, if any.

  const NameRequired: string := "Product name is required."
  const VariantsRequired: string := "At least one product variant is required."
  const IdRequired: string := "Product ID is required for update."
  const VariantIdRequired: string := "Product variant ID is required."
  const QuantityRequired: string := "Quantity must be greater than zero."

  /** createProduct: a blank name first, then an empty variant list. */
  function CheckCreate(req: CreateProductRequest): (r: Option<string>)
    ensures r.None? <==> !JavaStrings.IsBlank(req.name) && req.variants != []
    ensures JavaStrings.IsBlank(req.name) ==> r == Some(NameRequired)
    ensures !JavaStrings.IsBlank(req.name) && req.variants == [] ==> r == Some(VariantsRequired)
  {
    JavaStrings.TrimEmptyIff(req.name);
    if JavaStrings.Trim(req.name) == [] then Some(NameRequired)
    else if |req.variants| == 0 then Some(VariantsRequired)
    else None
  }

  /** updateProduct: a zero id first, then a blank name, then an empty variant list. */
  function CheckUpdate(req: UpdateProductRequest): (r: Option<string>)
    ensures r.None? <==> req.id != 0 && !JavaStrings.IsBlank(req.name) && req.variants != []
    ensures req.id == 0 ==> r == Some(IdRequired)
    ensures req.id != 0 && JavaStrings.IsBlank(req.name) ==> r == Some(NameRequired)
    ensures req.id != 0 && !JavaStrings.IsBlank(req.name) && req.variants == [] ==> r == Some(VariantsRequired)
  {
    JavaStrings.TrimEmptyIff(req.name);
    if req.id == 0 then Some(IdRequired)
    else if JavaStrings.Trim(req.name) == [] then Some(NameRequired)
    else if |req.variants| == 0 then Some(VariantsRequired)
    else None
  }

  /** decreaseStock: a zero variant id first, then a quantity that is not positive. */
  function CheckDecrease(req: DecreaseStockRequest): (r: Option<string>)
    ensures r.None? <==> req.productVariantId != 0 && req.quantity > 0
    ensures req.productVariantId == 0 ==> r == Some(VariantIdRequired)
    ensures req.productVariantId != 0 && req.quantity <= 0 ==> r == Some(QuantityRequired)
  {
    if req.productVariantId == 0 then Some(VariantIdRequired)
    else if req.quantity <= 0 then Some(QuantityRequired)
    else None
  }

  // ---------------------------------------------------------------------------
  // mapToProductCreateDto

  /** A create DTO variant carries exactly what its request variant says. */
  predicate CreateVariantCopied(v: CreateVariantRequest, d: VariantCreateDto) {
    && d.price == v.price && d.stock == v.stock && d.color == v.color
    && SizeName(d.size) == v.size && d.base64Images == v.base64Images
  }

  function VariantDtoOf(v: CreateVariantRequest): (r: Result<VariantCreateDto, string>)
    ensures r.Success? <==> v.size in SizeNames
    ensures r.Success? ==> CreateVariantCopied(v, r.value)
    ensures r.Failure? ==> r.error == Enums.NoConstantMessage(SizeClass, v.size)
  {
    match ParseSize(v.size)
    case Failure(m) => Failure(m)
    case Success(z) => Success(VariantCreateDto(v.price, v.stock, v.color, z, v.base64Images))
  }

  /** The index of the first variant whose size is not a Size constant. */
  function FirstUnknownSize(sizes: seq<string>): (r: Option<nat>)
    ensures r.None? <==> forall i :: 0 <= i < |sizes| ==> sizes[i] in SizeNames
    ensures r.Some? ==> r.value < |sizes| && sizes[r.value] !in SizeNames
    ensures r.Some? ==> forall j :: 0 <= j < r.value ==> sizes[j] in SizeNames
  {
    if sizes == [] then None
    else if sizes[0] !in SizeNames then Some(0)
    else match FirstUnknownSize(sizes[1..])
      case None => None
      case Some(k) => Some(k + 1)
  }

  function CreateSizes(vs: seq<CreateVariantRequest>): (r: seq<string>)
    ensures |r| == |vs| && forall i {:trigger r[i]} :: 0 <= i < |vs| ==> r[i] == vs[i].size
  {
    if vs == [] then [] else [vs[0].size] + CreateSizes(vs[1..])
  }

  /** The variants are mapped in order; the first unknown size aborts the mapping. */
  function VariantDtosOf(vs: seq<CreateVariantRequest>): (r: Result<seq<VariantCreateDto>, string>)
    ensures r.Success? <==> FirstUnknownSize(CreateSizes(vs)).None?
    ensures r.Success? ==> |r.value| == |vs| && forall i {:trigger r.value[i]} :: 0 <= i < |vs| ==> CreateVariantCopied(vs[i], r.value[i])
    ensures r.Failure? ==>
      r.error == Enums.NoConstantMessage(SizeClass, vs[FirstUnknownSize(CreateSizes(vs)).value].size)
  {
    if vs == [] then Success([])
    else match VariantDtoOf(vs[0])
      case Failure(m) => Failure(m)
      case Success(d) =>
        assert CreateSizes(vs)[1..] == CreateSizes(vs[1..]);
        match VariantDtosOf(vs[1..])
        case Failure(m) => Failure(m)
        case Success(ds) => Success([d] + ds)
  }

  /** mapToProductCreateDto: the season is looked up first, then every variant's size. */
  function CreateDtoOf(req: CreateProductRequest): (r: Result<ProductCreateDto, string>)
    ensures req.season !in SeasonNames ==> r == Failure(Enums.NoConstantMessage(SeasonClass, req.season))
    ensures r.Success? <==> req.season in SeasonNames && FirstUnknownSize(CreateSizes(req.variants)).None?
    ensures req.season in SeasonNames && r.Failure? ==>
      r.error == Enums.NoConstantMessage(SizeClass, req.variants[FirstUnknownSize(CreateSizes(req.variants)).value].size)
    ensures r.Success? ==>
      && r.value.name == req.name && r.value.description == req.description
      && SeasonName(r.value.season) == req.season
      && |r.value.variants| == |req.variants|
      && forall i :: 0 <= i < |req.variants| ==> CreateVariantCopied(req.variants[i], r.value.variants[i])
  {
    match ParseSeason(req.season)
    case Failure(m) => Failure(m)
    case Success(s) =>
      match VariantDtosOf(req.variants)
      case Failure(m) => Failure(m)
      case Success(ds) => Success(ProductCreateDto(req.name, req.description, s, ds))
  }

  // ---------------------------------------------------------------------------
  // mapToProduct (the update request)

  function ImagesOfRequests(imgs: seq<ImageRequest>): (r: seq<Image>)
    ensures |r| == |imgs|
    ensures forall i {:trigger r[i]} :: 0 <= i < |imgs| ==> r[i].id == imgs[i].id && r[i].base64Data == imgs[i].base64Data
  {
    if imgs == [] then [] else [Image(imgs[0].id, imgs[0].base64Data)] + ImagesOfRequests(imgs[1..])
  }

  /** A domain variant carries exactly what its update request variant says. */
  predicate UpdateVariantCopied(v: UpdateVariantRequest, d: Variant) {
    && d.id == v.id && d.price == v.price && d.stock == v.stock && d.color == v.color
    && SizeName(d.size) == v.size && d.images == ImagesOfRequests(v.images)
  }

  function VariantOfRequest(v: UpdateVariantRequest): (r: Result<Variant, string>)
    ensures r.Success? <==> v.size in SizeNames
    ensures r.Success? ==> UpdateVariantCopied(v, r.value)
    ensures r.Failure? ==> r.error == Enums.NoConstantMessage(SizeClass, v.size)
  {
    match ParseSize(v.size)
    case Failure(m) => Failure(m)
    case Success(z) => Success(Variant(v.id, v.price, v.stock, v.color, z, ImagesOfRequests(v.images)))
  }

  function UpdateSizes(vs: seq<UpdateVariantRequest>): (r: seq<string>)
    ensures |r| == |vs| && forall i {:trigger r[i]} :: 0 <= i < |vs| ==> r[i] == vs[i].size
  {
    if vs == [] then [] else [vs[0].size] + UpdateSizes(vs[1..])
  }

  function VariantsOfRequests(vs: seq<UpdateVariantRequest>): (r: Result<seq<Variant>, string>)
    ensures r.Success? <==> FirstUnknownSize(UpdateSizes(vs)).None?
    ensures r.Success? ==> |r.value| == |vs| && forall i {:trigger r.value[i]} :: 0 <= i < |vs| ==> UpdateVariantCopied(vs[i], r.value[i])
    ensures r.Failure? ==>
      r.error == Enums.NoConstantMessage(SizeClass, vs[FirstUnknownSize(UpdateSizes(vs)).value].size)
  {
    if vs == [] then Success([])
    else match VariantOfRequest(vs[0])
      case Failure(m) => Failure(m)
      case Success(d) =>
        assert UpdateSizes(vs)[1..] == UpdateSizes(vs[1..]);
        match VariantsOfRequests(vs[1..])
        case Failure(m) => Failure(m)
        case Success(ds) => Success([d] + ds)
  }

  /** mapToProduct: id, name and description copied, the season looked up, then every
      variant mapped in order with its id and images copied. */
  function ProductOf(req: UpdateProductRequest): (r: Result<Product, string>)
    ensures req.season !in SeasonNames ==> r == Failure(Enums.NoConstantMessage(SeasonClass, req.season))
    ensures r.Success? <==> req.season in SeasonNames && FirstUnknownSize(UpdateSizes(req.variants)).None?
    ensures req.season in SeasonNames && r.Failure? ==>
      r.error == Enums.NoConstantMessage(SizeClass, req.variants[FirstUnknownSize(UpdateSizes(req.variants)).value].size)
    ensures r.Success? ==>
      && r.value.id == req.id && r.value.name == req.name && r.value.description == req.description
      && SeasonName(r.value.season) == req.season
      && |r.value.variants| == |req.variants|
      && forall i :: 0 <= i < |req.variants| ==> UpdateVariantCopied(req.variants[i], r.value.variants[i])
  {
    match ParseSeason(req.season)
    case Failure(m) => Failure(m)
    case Success(s) =>
      match VariantsOfRequests(req.variants)
      case Failure(m) => Failure(m)
      case Success(vs) => Success(Product(req.id, req.name, req.description, s, vs))
  }

  // ---------------------------------------------------------------------------
  // Response mappers

  function ImageResponsesOf(imgs: seq<Image>): (r: seq<ImageResponse>)
    ensures |r| == |imgs|
    ensures forall i {:trigger r[i]} :: 0 <= i < |imgs| ==> r[i].id == imgs[i].id && r[i].base64Data == imgs[i].base64Data
  {
    if imgs == [] then [] else [ImageResponse(imgs[0].id, imgs[0].base64Data)] + ImageResponsesOf(imgs[1..])
  }

  /** A variant response shows every field of its variant, the size by name. */
  predicate VariantShown(v: Variant, w: VariantResponse) {
    && w.id == v.id && w.price == v.price && w.stock == v.stock && w.color == v.color
    && w.size == SizeName(v.size) && w.images == ImageResponsesOf(v.images)
  }

  function VariantResponsesOf(vs: seq<Variant>): (r: seq<VariantResponse>)
    ensures |r| == |vs|
    ensures forall i {:trigger r[i]} :: 0 <= i < |vs| ==> VariantShown(vs[i], r[i])
  {
    if vs == [] then []
    else
      var v := vs[0];
      [VariantResponse(v.id, v.price, v.stock, v.color, SizeName(v.size), ImageResponsesOf(v.images))]
        + VariantResponsesOf(vs[1..])
  }

  function ProductResponseOf(p: Product): (r: ProductResponse)
    ensures r.id == p.id && r.name == p.name && r.description == p.description
    ensures r.season == SeasonName(p.season)
    ensures |r.variants| == |p.variants| && forall i {:trigger r.variants[i]} :: 0 <= i < |p.variants| ==> VariantShown(p.variants[i], r.variants[i])
  {
    ProductResponse(p.id, p.name, p.description, SeasonName(p.season), VariantResponsesOf(p.variants))
  }

  function ProductResponsesOf(ps: seq<Product>): (r: seq<ProductResponse>)
    ensures |r| == |ps| && forall i {:trigger r[i]} :: 0 <= i < |ps| ==> r[i] == ProductResponseOf(ps[i])
  {
    if ps == [] then [] else [ProductResponseOf(ps[0])] + ProductResponsesOf(ps[1..])
  }

  // ---------------------------------------------------------------------------
  // A client that sends a product response back unchanged as an update request

  function ResentImages(ws: seq<ImageResponse>): seq<ImageRequest> {
    seq(|ws|, i requires 0 <= i < |ws| => ImageRequest(ws[i].id, ws[i].base64Data))
  }

  function ResentVariant(w: VariantResponse): UpdateVariantRequest {
    UpdateVariantRequest(w.id, w.price, w.stock, w.color, w.size, ResentImages(w.images))
  }

  function Resent(r: ProductResponse): UpdateProductRequest {
    UpdateProductRequest(r.id, r.name, r.description, r.season,
      seq(|r.variants|, i requires 0 <= i < |r.variants| => ResentVariant(r.variants[i])))
  }

  lemma {:induction false} ResentImagesRoundTrip(imgs: seq<Image>)
    ensures ImagesOfRequests(ResentImages(ImageResponsesOf(imgs))) == imgs
  {
    var back := ImagesOfRequests(ResentImages(ImageResponsesOf(imgs)));
    forall i | 0 <= i < |imgs| ensures back[i] == imgs[i] {
    }
  }

  /** A variant sent back as it was shown maps to the same variant. */
  lemma {:induction false} ResendVariantRoundTrip(v: Variant, w: VariantResponse, d: Variant)
    requires VariantShown(v, w) && UpdateVariantCopied(ResentVariant(w), d)
    ensures d == v
  {
    ParseSizeName(v.size);
    ParseSizeName(d.size);
    ResentImagesRoundTrip(v.images);
  }

  /** Every size a client sends back is a Size constant's name. */
  lemma {:induction false} ResentSizesKnown(p: Product)
    ensures FirstUnknownSize(UpdateSizes(Resent(ProductResponseOf(p)).variants)).None?
  {
    var r := ProductResponseOf(p);
    var req := Resent(r);
    forall i | 0 <= i < |req.variants| ensures UpdateSizes(req.variants)[i] in SizeNames {
      assert req.variants[i] == ResentVariant(r.variants[i]);
      assert VariantShown(p.variants[i], r.variants[i]);
    }
  }

  /** The variants sent back map to the product's variants. */
  lemma {:induction false} ResentVariantsBack(p: Product)
    ensures VariantsOfRequests(Resent(ProductResponseOf(p)).variants) == Success(p.variants)
  {
    var r := ProductResponseOf(p);
    var req := Resent(r);
    ResentSizesKnown(p);
    var vs := VariantsOfRequests(req.variants);
    forall i | 0 <= i < |p.variants| ensures vs.value[i] == p.variants[i] {
      assert req.variants[i] == ResentVariant(r.variants[i]);
      ResendVariantRoundTrip(p.variants[i], r.variants[i], vs.value[i]);
    }
    assert vs.value == p.variants;
  }

  /** The update mapping undoes the response mapping: a product read and sent back as it
      was shown maps to the same product, every variant size and the season included. */
  lemma {:induction false} ResendRoundTrip(p: Product)
    ensures ProductOf(Resent(ProductResponseOf(p))) == Success(p)
  {
    ParseSeasonName(p.season);
    ResentVariantsBack(p);
  }
}
