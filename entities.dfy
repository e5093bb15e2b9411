/** The JPA entities of the adapter: rows of the products, product_variants and
    product_images tables, held as a tree. The back-references from an image to its
    variant and from a variant to its product are the tree's parent edges and are not
    stored separately. A list field of an entity may be null (None). */
module Entities {
  import opened Wrappers
  import opened Domain

  datatype ImageEntity = ImageEntity(id: int, base64Data: string)

  datatype VariantEntity = VariantEntity(
    id: int, price: Price, stock: int, color: string, size: Size,
    images: Option<seq<ImageEntity>>)

  datatype ProductEntity = ProductEntity(
    id: int, name: string, description: string, season: Season,
    variants: Option<seq<VariantEntity>>)

  /** The elements of a list that may be null; a null list reads as empty. */
  function Elems<T>(l: Option<seq<T>>): (r: seq<T>)
    ensures l.None? ==> r == []
    ensures l.Some? ==> r == l.value
  {
    match l
    case None => []
    case Some(s) => s
  }
}
