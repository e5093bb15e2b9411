/** ProductGrpcController: each handler checks its request, maps it to the domain, calls
    the use case and turns the outcome into one response or one error status. The
    handlers are specified as functions of the store (the `Handle*` functions), the
    controller class's methods are proved to do exactly that, and the lemmas state what
    the handlers answer for every request and store. */
module GrpcController {
  import opened Wrappers
  import opened Domain
  import opened GrpcMappers
  import JavaStrings
  import Enums
  import RepositoryMappers
  import RepositoryModel
  import Service

  /** The status codes the handlers fail with. */
  datatype Code = InvalidArgument | NotFound | FailedPrecondition

  /** What a handler hands its observer: one response, or an error status with a description. */
  datatype Reply<T> = Ok(response: T) | Err(code: Code, description: string)

  type StoreState = RepositoryModel.StoreState

  // ---------------------------------------------------------------------------
  // The handlers as functions of the store

  /** getProductById: any failure of the use case is NOT_FOUND with the failure's message. */
  function HandleGetProductById(st: StoreState, req: GetProductByIdRequest): Reply<ProductResponse> {
    match RepositoryModel.FindById(st, req.id)
    case Failure(e) => Err(NotFound, Message(e))
    case Success(p) => Ok(ProductResponseOf(p))
  }

  function HandleGetAllProducts(st: StoreState): ProductListResponse {
    ProductListResponse(ProductResponsesOf(RepositoryModel.FindAll(st)))
  }

  /** createProduct: the two field checks, then the mapping, then the use case; a failed
      check or an unknown enum name is INVALID_ARGUMENT. */
  function HandleCreateProduct(st: StoreState, req: CreateProductRequest): RepositoryModel.Step<Reply<ProductResponse>> {
    match CheckCreate(req)
    case Some(m) => RepositoryModel.Step(st, Err(InvalidArgument, m))
    case None =>
      match CreateDtoOf(req)
      case Failure(m) => RepositoryModel.Step(st, Err(InvalidArgument, m))
      case Success(dto) =>
        var s := RepositoryModel.Create(st, dto);
        RepositoryModel.Step(s.state, Ok(ProductResponseOf(s.result)))
  }

  /** updateProduct: the three field checks and the mapping fail INVALID_ARGUMENT; a failure
      of the use case is NOT_FOUND. */
  function HandleUpdateProduct(st: StoreState, req: UpdateProductRequest): RepositoryModel.Step<Reply<ProductResponse>> {
    match CheckUpdate(req)
    case Some(m) => RepositoryModel.Step(st, Err(InvalidArgument, m))
    case None =>
      match ProductOf(req)
      case Failure(m) => RepositoryModel.Step(st, Err(InvalidArgument, m))
      case Success(p) =>
        var s := RepositoryModel.Update(st, p);
        match s.result
        case Failure(e) => RepositoryModel.Step(s.state, Err(NotFound, Message(e)))
        case Success(q) => RepositoryModel.Step(s.state, Ok(ProductResponseOf(q)))
  }

  /** deleteProduct: an unsuccessful result is NOT_FOUND with the result's message. */
  function HandleDeleteProduct(st: StoreState, req: DeleteProductRequest): RepositoryModel.Step<Reply<DeleteProductResponse>> {
    var s := RepositoryModel.DeleteById(st, req.id);
    if !s.result.success then RepositoryModel.Step(s.state, Err(NotFound, s.result.message))
    else RepositoryModel.Step(s.state, Ok(DeleteProductResponse(true, s.result.message)))
  }

  /** decreaseStock: the two field checks fail INVALID_ARGUMENT; a failure of the use case
      is FAILED_PRECONDITION. */
  function HandleDecreaseStock(st: StoreState, req: DecreaseStockRequest): RepositoryModel.Step<Reply<ProductResponse>> {
    match CheckDecrease(req)
    case Some(m) => RepositoryModel.Step(st, Err(InvalidArgument, m))
    case None =>
      var s := RepositoryModel.DecreaseStock(st, req.productVariantId, req.quantity);
      match s.result
      case Failure(e) => RepositoryModel.Step(s.state, Err(FailedPrecondition, Message(e)))
      case Success(p) => RepositoryModel.Step(s.state, Ok(ProductResponseOf(p)))
  }

  // ---------------------------------------------------------------------------
  // What the handlers answer

  /** getProductById answers the stored product, shown field by field, or NOT_FOUND naming the id. */
  lemma {:induction false} GetProductByIdReply(st: StoreState, req: GetProductByIdRequest)
    ensures var r := HandleGetProductById(st, req);
      && (req.id !in st.products ==>
            r == Err(NotFound, "Product not found with ID: " + JavaStrings.LongToString(req.id)))
      && (req.id in st.products ==>
            r == Ok(ProductResponseOf(RepositoryMappers.ToProduct(st.products[req.id]))))
  {
  }

  /** getAllProducts answers one response per stored product, every stored product
      included, in increasing id order. */
  lemma {:induction false} GetAllProductsReply(st: StoreState)
    requires RepositoryModel.Valid(st)
    ensures var r := HandleGetAllProducts(st).products;
      && |r| == |st.products|
      && (forall i :: 0 <= i < |r| ==>
            r[i].id in st.products && r[i] == ProductResponseOf(RepositoryMappers.ToProduct(st.products[r[i].id])))
      && (forall i, j :: 0 <= i < j < |r| ==> r[i].id < r[j].id)
      && (forall id :: id in st.products ==> exists i :: 0 <= i < |r| && r[i].id == id)
  {
    RepositoryModel.FindAllContents(st);
    var ps := RepositoryModel.FindAll(st);
    var r := HandleGetAllProducts(st).products;
    forall i | 0 <= i < |r| ensures r[i] == ProductResponseOf(ps[i]) && r[i].id == ps[i].id {
    }
    forall id | id in st.products ensures exists i :: 0 <= i < |r| && r[i].id == id {
      ResponsesCoverId(ps, r, id);
    }
  }

  /** Responses that keep each product's id, position by position, cover every id the
      products cover. */
  lemma ResponsesCoverId(ps: seq<Product>, r: seq<ProductResponse>, id: int)
    requires |r| == |ps| && forall i :: 0 <= i < |ps| ==> r[i].id == ps[i].id
    requires exists i :: 0 <= i < |ps| && ps[i].id == id
    ensures exists i :: 0 <= i < |r| && r[i].id == id
  {
    var i :| 0 <= i < |ps| && ps[i].id == id;
    assert r[i].id == id;
  }

  /** createProduct is rejected, with INVALID_ARGUMENT and the store unchanged, exactly when
      the name is blank, the variant list is empty, or a season or size name is unknown;
      the message is that of the first of these, in this order. */
  lemma {:induction false} CreateProductRejected(st: StoreState, req: CreateProductRequest)
    ensures var s := HandleCreateProduct(st, req);
      && (s.result.Err? <==>
            JavaStrings.IsBlank(req.name) || req.variants == [] || req.season !in SeasonNames
            || FirstUnknownSize(CreateSizes(req.variants)).Some?)
      && (s.result.Err? ==> s.state == st && s.result.code == InvalidArgument)
      && (JavaStrings.IsBlank(req.name) ==> s.result == Err(InvalidArgument, NameRequired))
      && (!JavaStrings.IsBlank(req.name) && req.variants == [] ==> s.result == Err(InvalidArgument, VariantsRequired))
      && (CheckCreate(req).None? && req.season !in SeasonNames ==>
            s.result == Err(InvalidArgument, Enums.NoConstantMessage(SeasonClass, req.season)))
      && (CheckCreate(req).None? && req.season in SeasonNames && FirstUnknownSize(CreateSizes(req.variants)).Some? ==>
            s.result == Err(InvalidArgument,
              Enums.NoConstantMessage(SizeClass, req.variants[FirstUnknownSize(CreateSizes(req.variants)).value].size)))
  {
  }

  /** An accepted createProduct stores one new product under a fresh non-zero id, leaves
      every other product as it was, and answers with it: the request's name, description
      and season, and one variant per request variant, in order, with its price, stock,
      color and size and one image per base64 string, in order. */
  lemma {:induction false} CreateProductAccepted(st: StoreState, req: CreateProductRequest)
    requires RepositoryModel.Valid(st)
    requires HandleCreateProduct(st, req).result.Ok?
    ensures var s := HandleCreateProduct(st, req); var r := s.result.response;
      && RepositoryModel.Valid(s.state)
      && r.id != 0 && r.id !in st.products
      && s.state.products.Keys == st.products.Keys + {r.id}
      && (forall id :: id in st.products ==> s.state.products[id] == st.products[id])
      && HandleGetProductById(s.state, GetProductByIdRequest(r.id)) == Ok(r)
      && r.name == req.name && r.description == req.description && r.season == req.season
      && |r.variants| == |req.variants|
      && (forall i :: 0 <= i < |r.variants| ==> CreateVariantShown(req.variants[i], r.variants[i]))
  {
    var dto := CreateDtoOf(req).value;
    RepositoryModel.CreateSpec(st, dto);
    CreateShown(req, dto, RepositoryModel.Create(st, dto).result);
  }

  /** The response to a product built from a create request's DTO shows the request's
      content. */
  lemma {:induction false} CreateShown(req: CreateProductRequest, dto: ProductCreateDto, p: Product)
    requires CreateDtoOf(req) == Success(dto) && RepositoryMappers.Matches(dto, p)
    ensures var r := ProductResponseOf(p);
      && r.name == req.name && r.description == req.description && r.season == req.season
      && |r.variants| == |req.variants|
      && (forall i :: 0 <= i < |r.variants| ==> CreateVariantShown(req.variants[i], r.variants[i]))
  {
    var r := ProductResponseOf(p);
    forall i | 0 <= i < |r.variants| ensures CreateVariantShown(req.variants[i], r.variants[i]) {
      assert CreateVariantCopied(req.variants[i], dto.variants[i]);
      assert RepositoryMappers.VariantMatches(dto.variants[i], p.variants[i]);
      assert VariantShown(p.variants[i], r.variants[i]);
    }
  }

  /** A variant response shows a create request's variant: the same price, stock, color
      and size name, and one image per base64 string, in order. */
  ghost predicate CreateVariantShown(v: CreateVariantRequest, w: VariantResponse) {
    && w.price == v.price && w.stock == v.stock && w.color == v.color && w.size == v.size
    && |w.images| == |v.base64Images|
    && forall k :: 0 <= k < |w.images| ==> w.images[k].base64Data == v.base64Images[k]
  }

  /** updateProduct: a failed check or an unknown enum name is INVALID_ARGUMENT with the
      first failure's message; a well-formed request for a missing id is NOT_FOUND naming
      the id; in all three cases the store is unchanged. */
  lemma {:induction false} UpdateProductRejected(st: StoreState, req: UpdateProductRequest)
    requires RepositoryModel.Valid(st)
    ensures var s := HandleUpdateProduct(st, req);
      && (req.id == 0 ==> s == RepositoryModel.Step(st, Err(InvalidArgument, IdRequired)))
      && (req.id != 0 && JavaStrings.IsBlank(req.name) ==> s == RepositoryModel.Step(st, Err(InvalidArgument, NameRequired)))
      && (CheckUpdate(req).Some? ==> s == RepositoryModel.Step(st, Err(InvalidArgument, CheckUpdate(req).value)))
      && (CheckUpdate(req).None? && ProductOf(req).Failure? ==>
            s == RepositoryModel.Step(st, Err(InvalidArgument, ProductOf(req).error)))
      && (CheckUpdate(req).None? && ProductOf(req).Success? && req.id !in st.products ==>
            s == RepositoryModel.Step(st, Err(NotFound, "Product not found with ID: " + JavaStrings.LongToString(req.id))))
  {
    if CheckUpdate(req).None? && ProductOf(req).Success? {
      RepositoryModel.UpdateSpec(st, ProductOf(req).value);
    }
  }

  /** An accepted updateProduct of a stored product answers with exactly what was sent: a
      client that sends the response back sends the same request. The product as now
      stored is the one answered, and no other product changes. */
  lemma {:induction false} UpdateProductAccepted(st: StoreState, req: UpdateProductRequest)
    requires RepositoryModel.Valid(st)
    requires CheckUpdate(req).None? && ProductOf(req).Success? && req.id in st.products
    ensures var s := HandleUpdateProduct(st, req);
      && RepositoryModel.Valid(s.state)
      && s.result.Ok?
      && Resent(s.result.response) == req
      && HandleGetProductById(s.state, GetProductByIdRequest(req.id)) == s.result
      && s.state.products.Keys == st.products.Keys
      && (forall k :: k in st.products && k != req.id ==> s.state.products[k] == st.products[k])
  {
    var p := ProductOf(req).value;
    RepositoryModel.UpdateSpec(st, p);
    EchoUpdate(req);
  }

  lemma {:induction false} EchoImages(imgs: seq<ImageRequest>)
    ensures ResentImages(ImageResponsesOf(ImagesOfRequests(imgs))) == imgs
  {
    var back := ResentImages(ImageResponsesOf(ImagesOfRequests(imgs)));
    forall k | 0 <= k < |imgs| ensures back[k] == imgs[k] {
    }
  }

  /** Mapping an update request to a product and the product to a response gives back the
      request, once the response is read as a request. */
  lemma {:induction false} EchoUpdate(req: UpdateProductRequest)
    requires ProductOf(req).Success?
    ensures Resent(ProductResponseOf(ProductOf(req).value)) == req
  {
    var p := ProductOf(req).value;
    var back := Resent(ProductResponseOf(p));
    forall i | 0 <= i < |req.variants| ensures back.variants[i] == req.variants[i] {
      EchoImages(req.variants[i].images);
    }
  }

  /** deleteProduct answers success with the adapter's message when the product exists, and
      otherwise NOT_FOUND with "Product not found." and the store unchanged. */
  lemma {:induction false} DeleteProductReply(st: StoreState, req: DeleteProductRequest)
    requires RepositoryModel.Valid(st)
    ensures var s := HandleDeleteProduct(st, req);
      && RepositoryModel.Valid(s.state)
      && (s.result.Ok? <==> req.id in st.products)
      && (req.id in st.products ==>
            s.result == Ok(DeleteProductResponse(true, RepositoryModel.ProductDeletedMessage))
            && s.state.products.Keys == st.products.Keys - {req.id})
      && (req.id !in st.products ==>
            s == RepositoryModel.Step(st, Err(NotFound, RepositoryModel.ProductNotFoundMessage)))
  {
    RepositoryModel.DeleteSpec(st, req.id);
  }

  /** decreaseStock reaches the use case only with a non-zero variant id and a positive
      quantity; a malformed request is INVALID_ARGUMENT, a missing variant or too little
      stock is FAILED_PRECONDITION, and in each of those cases the store is unchanged. */
  lemma {:induction false} DecreaseStockRejected(st: StoreState, req: DecreaseStockRequest)
    requires RepositoryModel.Valid(st)
    ensures var s := HandleDecreaseStock(st, req);
      && (s.state != st ==> req.productVariantId != 0 && req.quantity > 0)
      && (req.productVariantId == 0 ==> s == RepositoryModel.Step(st, Err(InvalidArgument, VariantIdRequired)))
      && (req.productVariantId != 0 && req.quantity <= 0 ==>
            s == RepositoryModel.Step(st, Err(InvalidArgument, QuantityRequired)))
      && (CheckDecrease(req).None? && RepositoryModel.LocateVariant(st, req.productVariantId).None? ==>
            s == RepositoryModel.Step(st, Err(FailedPrecondition,
              "Product variant not found with ID: " + JavaStrings.LongToString(req.productVariantId))))
      && (CheckDecrease(req).None? && RepositoryModel.LocateVariant(st, req.productVariantId).Some?
          && RepositoryModel.LocatedStock(st, req.productVariantId) < req.quantity ==>
            s == RepositoryModel.Step(st, Err(FailedPrecondition,
              "Insufficient stock for product variant ID: " + JavaStrings.LongToString(req.productVariantId))))
  {
  }

  /** An accepted decreaseStock lowers the located variant's stock by the quantity, which
      leaves it smaller than before but not negative, and answers the owning product as
      now stored. */
  lemma {:induction false} DecreaseStockAccepted(st: StoreState, req: DecreaseStockRequest)
    requires RepositoryModel.Valid(st)
    requires CheckDecrease(req).None? && RepositoryModel.LocateVariant(st, req.productVariantId).Some?
    requires RepositoryModel.LocatedStock(st, req.productVariantId) >= req.quantity
    ensures var s := HandleDecreaseStock(st, req);
      var pid := RepositoryModel.LocateVariant(st, req.productVariantId).value;
      && RepositoryModel.Valid(s.state)
      && RepositoryModel.LocateVariant(s.state, req.productVariantId) == Some(pid)
      && 0 <= RepositoryModel.LocatedStock(s.state, req.productVariantId) < RepositoryModel.LocatedStock(st, req.productVariantId)
      && RepositoryModel.LocatedStock(s.state, req.productVariantId)
           == RepositoryModel.LocatedStock(st, req.productVariantId) - req.quantity
      && s.result == HandleGetProductById(s.state, GetProductByIdRequest(pid))
  {
    RepositoryModel.DecreaseStockSucceeds(st, req.productVariantId, req.quantity);
    RepositoryModel.DecreaseStockLocatesSame(st, req.productVariantId, req.quantity);
  }

  // ---------------------------------------------------------------------------
  // The controller

  class ProductGrpcController {
    const useCase: Service.ProductService

    constructor (useCase: Service.ProductService)
      ensures this.useCase == useCase
    {
      this.useCase := useCase;
    }

    method GetProductById(req: GetProductByIdRequest) returns (r: Reply<ProductResponse>)
      requires useCase.port.Valid()
      ensures r == HandleGetProductById(useCase.port.State(), req)
    {
      var found := useCase.GetProductById(req.id);
      match found
      case Failure(e) =>
        r := Err(NotFound, Message(e));
      case Success(product) =>
        r := Ok(ProductResponseOf(product));
    }

    method GetAllProducts() returns (r: ProductListResponse)
      requires useCase.port.Valid()
      ensures r == HandleGetAllProducts(useCase.port.State())
    {
      var products := useCase.GetAllProducts();
      r := ProductListResponse(ProductResponsesOf(products));
    }

    method CreateProduct(req: CreateProductRequest) returns (r: Reply<ProductResponse>)
      requires useCase.port.Valid()
      modifies useCase.port
      ensures useCase.port.Valid()
      ensures RepositoryModel.Step(useCase.port.State(), r) == HandleCreateProduct(old(useCase.port.State()), req)
    {
      var invalid := CheckCreate(req);
      if invalid.Some? {
        return Err(InvalidArgument, invalid.value);
      }
      var dto := CreateDtoOf(req);
      if dto.Failure? {
        return Err(InvalidArgument, dto.error);
      }
      var createdProduct := useCase.CreateProduct(dto.value);
      r := Ok(ProductResponseOf(createdProduct));
    }

    method UpdateProduct(req: UpdateProductRequest) returns (r: Reply<ProductResponse>)
      requires useCase.port.Valid()
      modifies useCase.port
      ensures useCase.port.Valid()
      ensures RepositoryModel.Step(useCase.port.State(), r) == HandleUpdateProduct(old(useCase.port.State()), req)
    {
      var invalid := CheckUpdate(req);
      if invalid.Some? {
        return Err(InvalidArgument, invalid.value);
      }
      var productToBeUpdated := ProductOf(req);
      if productToBeUpdated.Failure? {
        return Err(InvalidArgument, productToBeUpdated.error);
      }
      var updated := useCase.UpdateProduct(productToBeUpdated.value);
      match updated
      case Failure(e) =>
        r := Err(NotFound, Message(e));
      case Success(product) =>
        r := Ok(ProductResponseOf(product));
    }

    method DeleteProduct(req: DeleteProductRequest) returns (r: Reply<DeleteProductResponse>)
      requires useCase.port.Valid()
      modifies useCase.port
      ensures useCase.port.Valid()
      ensures RepositoryModel.Step(useCase.port.State(), r) == HandleDeleteProduct(old(useCase.port.State()), req)
    {
      var deleteResult := useCase.DeleteProduct(req.id);
      if !deleteResult.success {
        return Err(NotFound, deleteResult.message);
      }
      r := Ok(DeleteProductResponse(true, deleteResult.message));
    }

    method DecreaseStock(req: DecreaseStockRequest) returns (r: Reply<ProductResponse>)
      requires useCase.port.Valid()
      modifies useCase.port
      ensures useCase.port.Valid()
      ensures RepositoryModel.Step(useCase.port.State(), r) == HandleDecreaseStock(old(useCase.port.State()), req)
    {
      var invalid := CheckDecrease(req);
      if invalid.Some? {
        return Err(InvalidArgument, invalid.value);
      }
      var updated := useCase.DecreaseStock(req.productVariantId, req.quantity);
      match updated
      case Failure(e) =>
        r := Err(FailedPrecondition, Message(e));
      case Success(product) =>
        r := Ok(ProductResponseOf(product));
    }
  }
}
