/** JpaProductRepository: the persistence adapter as an object whose state is the
    products table (product id -> entity tree) and the storage's id counter. Each method
    does what the adapter's method does and is proved to move the store exactly as the
    matching function of RepositoryModel says; the lemmas there say what that means. */
module RepositoryAdapter {
  import opened Wrappers
  import opened Domain
  import opened Entities
  import opened RepositoryMappers
  import RepositoryModel

  class JpaProductRepository {
    var products: map<int, ProductEntity>
    var nextId: int

    function State(): RepositoryModel.StoreState
      reads this
    {
      RepositoryModel.StoreState(products, nextId)
    }

    ghost predicate Valid()
      reads this
    {
      RepositoryModel.Valid(State())
    }

    /** An empty catalogue whose first id will be 1. */
    constructor ()
      ensures Valid() && products == map[] && nextId == 1
    {
      products := map[];
      nextId := 1;
    }

    method FindById(id: int) returns (r: Result<Product, RepoError>)
      requires Valid()
      ensures r == RepositoryModel.FindById(State(), id)
      ensures id !in products ==> r == Failure(ProductNotFound(id))
      ensures id in products ==> r.Success? && r.value.id == id
    {
      if id !in products {
        return Failure(ProductNotFound(id));
      }
      r := Success(ToProduct(products[id]));
    }

    method FindAll() returns (r: seq<Product>)
      requires Valid()
      ensures r == RepositoryModel.FindAll(State())
      ensures |r| == |products|
      ensures forall i :: 0 <= i < |r| ==> r[i].id in products && r[i] == ToProduct(products[r[i].id])
      ensures forall i, j :: 0 <= i < j < |r| ==> r[i].id < r[j].id
    {
      var table := products;
      var ids := RepositoryModel.SortedIds(table.Keys);
      r := seq(|ids|, i requires 0 <= i < |ids| => ToProduct(table[ids[i]]));
      assert r == RepositoryModel.FindAll(State());
      RepositoryModel.FindAllContents(State());
    }

    method Create(dto: ProductCreateDto) returns (r: Product)
      requires Valid()
      modifies this
      ensures Valid()
      ensures var s := RepositoryModel.Create(old(State()), dto);
        State() == s.state && r == s.result
    {
      RepositoryModel.CreateSpec(State(), dto);
      var productEntity := NewProductEntity(dto);
      var saved := Persist(productEntity, nextId);
      products := products[nextId := saved.entity];
      nextId := saved.nextId;
      r := ToProduct(saved.entity);
    }

    method DeleteById(id: int) returns (r: DeleteResult)
      requires Valid()
      modifies this
      ensures Valid()
      ensures var s := RepositoryModel.DeleteById(old(State()), id);
        State() == s.state && r == s.result
    {
      RepositoryModel.DeleteSpec(State(), id);
      if id !in products {
        return DeleteResult(false, RepositoryModel.ProductNotFoundMessage);
      }
      products := products - {id};
      r := DeleteResult(true, RepositoryModel.ProductDeletedMessage);
    }

    method Update(product: Product) returns (r: Result<Product, RepoError>)
      requires Valid()
      modifies this
      ensures Valid()
      ensures var s := RepositoryModel.Update(old(State()), product);
        State() == s.state && r == s.result
    {
      RepositoryModel.UpdateSpec(State(), product);
      if product.id !in products {
        return Failure(ProductNotFound(product.id));
      }
      var entity := products[product.id];
      entity := entity.(name := product.name, description := product.description, season := product.season);
      entity := entity.(variants := Some(VariantEntitiesOf(product.variants)));
      products := products[product.id := entity];
      r := Success(ToProduct(entity));
    }

    method DecreaseStock(productVariantId: int, quantity: int) returns (r: Result<Product, RepoError>)
      requires Valid()
      modifies this
      ensures Valid()
      ensures var s := RepositoryModel.DecreaseStock(old(State()), productVariantId, quantity);
        State() == s.state && r == s.result
    {
      var st := State();
      RepositoryModel.DecreaseStockValid(st, productVariantId, quantity);
      ghost var spec := RepositoryModel.DecreaseStock(st, productVariantId, quantity);
      var owner := RepositoryModel.LocateVariant(st, productVariantId);
      if owner.None? {
        assert spec == RepositoryModel.Step(st, Failure(VariantNotFound(productVariantId)));
        return Failure(VariantNotFound(productVariantId));
      }
      var table := products;
      var pid := owner.value;
      assert spec == RepositoryModel.DecreaseIn(st, pid, productVariantId, quantity);
      var vs := Elems(table[pid].variants);
      var i := RepositoryModel.VariantIndex(vs, productVariantId).value;
      if vs[i].stock < quantity {
        assert spec == RepositoryModel.Step(st, Failure(InsufficientStock(productVariantId)));
        return Failure(InsufficientStock(productVariantId));
      }
      var updated := RepositoryModel.WithStock(table[pid], i, vs[i].stock - quantity);
      assert spec == RepositoryModel.Step(st.(products := table[pid := updated]), Success(ToProduct(updated)));
      products := table[pid := updated];
      r := Success(ToProduct(updated));
    }
  }
}
