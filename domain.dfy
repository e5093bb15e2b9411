/** The nested domain model the adapter and the controller exchange: Product, its
    variants and their images, the create DTO, the delete result, and the failures the
    persistence adapter throws. */
module Domain {
  import opened Wrappers
  import Enums
  import JavaStrings

  /** Constant names of the Season and Size enumerations, by ordinal. */
  const SeasonNames: seq<string> := ["SPRING", "SUMMER", "FALL", "WINTER"]
  const SizeNames: seq<string> := ["XS", "S", "M", "L", "XL", "XXL"]

  const SeasonClass: string := "com.okbasalman.product_service.domain.model.Season"
  const SizeClass: string := "com.okbasalman.product_service.domain.model.Size"

  /** A constant of an enumeration is its ordinal. */
  type Season = k: nat | k < |SeasonNames| witness 0
  type Size = k: nat | k < |SizeNames| witness 0

  /** Season.name() and Size.name(). */
  function SeasonName(s: Season): string { SeasonNames[s] }
  function SizeName(z: Size): string { SizeNames[z] }

  /** Season.valueOf: the constant named `token`, or the IllegalArgumentException message. */
  function ParseSeason(token: string): (r: Result<Season, string>)
    ensures r.Success? <==> token in SeasonNames
    ensures r.Success? ==> SeasonName(r.value) == token
    ensures r.Failure? ==> r.error == Enums.NoConstantMessage(SeasonClass, token)
  {
    match Enums.Ordinal(SeasonNames, token)
    case Some(k) => Success(k)
    case None => Failure(Enums.NoConstantMessage(SeasonClass, token))
  }

  /** Size.valueOf. */
  function ParseSize(token: string): (r: Result<Size, string>)
    ensures r.Success? <==> token in SizeNames
    ensures r.Success? ==> SizeName(r.value) == token
    ensures r.Failure? ==> r.error == Enums.NoConstantMessage(SizeClass, token)
  {
    match Enums.Ordinal(SizeNames, token)
    case Some(k) => Success(k)
    case None => Failure(Enums.NoConstantMessage(SizeClass, token))
  }

  /** Rendering a season by name and parsing the name back gives the season. */
  lemma {:induction false} ParseSeasonName(s: Season)
    ensures ParseSeason(SeasonName(s)) == Success(s)
  {
    Enums.OrdinalOfName(SeasonNames, s);
  }

  lemma {:induction false} ParseSizeName(z: Size)
    ensures ParseSize(SizeName(z)) == Success(z)
  {
    Enums.OrdinalOfName(SizeNames, z);
  }

  /** A Java double that is only ever copied. */
  type Price = real

  datatype Image = Image(id: int, base64Data: string)

  datatype Variant = Variant(id: int, price: Price, stock: int, color: string, size: Size, images: seq<Image>)

  datatype Product = Product(id: int, name: string, description: string, season: Season, variants: seq<Variant>)

  datatype VariantCreateDto = VariantCreateDto(price: Price, stock: int, color: string, size: Size, base64Images: seq<string>)

  datatype ProductCreateDto = ProductCreateDto(name: string, description: string, season: Season, variants: seq<VariantCreateDto>)

  datatype DeleteResult = DeleteResult(success: bool, message: string)

  /** The RuntimeExceptions thrown by the persistence adapter. */
  datatype RepoError =
    | ProductNotFound(productId: int)
    | VariantNotFound(variantId: int)
    | InsufficientStock(variantId: int)

  /** getMessage() of each of those exceptions. */
  function Message(e: RepoError): string {
    match e
    case ProductNotFound(id) => "Product not found with ID: " + JavaStrings.LongToString(id)
    case VariantNotFound(id) => "Product variant not found with ID: " + JavaStrings.LongToString(id)
    case InsufficientStock(id) => "Insufficient stock for product variant ID: " + JavaStrings.LongToString(id)
  }
}
