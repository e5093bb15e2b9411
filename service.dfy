/** ProductService: the use case, which hands every request to the repository port
    unchanged and returns what the port returns. Each method is therefore proved to do to
    the store exactly what the port's operation does. */
module Service {
  import opened Wrappers
  import opened Domain
  import RepositoryModel
  import RepositoryAdapter

  class ProductService {
    const port: RepositoryAdapter.JpaProductRepository

    constructor (port: RepositoryAdapter.JpaProductRepository)
      ensures this.port == port
    {
      this.port := port;
    }

    method GetProductById(id: int) returns (r: Result<Product, RepoError>)
      requires port.Valid()
      ensures r == RepositoryModel.FindById(port.State(), id)
    {
      r := port.FindById(id);
    }

    method GetAllProducts() returns (r: seq<Product>)
      requires port.Valid()
      ensures r == RepositoryModel.FindAll(port.State())
    {
      r := port.FindAll();
    }

    method CreateProduct(dto: ProductCreateDto) returns (r: Product)
      requires port.Valid()
      modifies port
      ensures port.Valid()
      ensures var s := RepositoryModel.Create(old(port.State()), dto);
        port.State() == s.state && r == s.result
    {
      r := port.Create(dto);
    }

    method UpdateProduct(product: Product) returns (r: Result<Product, RepoError>)
      requires port.Valid()
      modifies port
      ensures port.Valid()
      ensures var s := RepositoryModel.Update(old(port.State()), product);
        port.State() == s.state && r == s.result
    {
      r := port.Update(product);
    }

    method DeleteProduct(id: int) returns (r: DeleteResult)
      requires port.Valid()
      modifies port
      ensures port.Valid()
      ensures var s := RepositoryModel.DeleteById(old(port.State()), id);
        port.State() == s.state && r == s.result
    {
      r := port.DeleteById(id);
    }

    method DecreaseStock(productVariantId: int, quantity: int) returns (r: Result<Product, RepoError>)
      requires port.Valid()
      modifies port
      ensures port.Valid()
      ensures var s := RepositoryModel.DecreaseStock(old(port.State()), productVariantId, quantity);
        port.State() == s.state && r == s.result
    {
      r := port.DecreaseStock(productVariantId, quantity);
    }
  }
}
