# product-service core, modelled in Dafny

This models the core of a product catalogue service. A product has a name, a description and a season. It owns variants (price, stock, colour, size), and each variant owns base64-encoded images. The service has three layers:

- the **gRPC controller** (`ProductGrpcController`): it checks each request, maps it to the domain, calls the use case and turns the outcome into one response or one error status (INVALID_ARGUMENT, NOT_FOUND, FAILED_PRECONDITION);
- the **use case** (`ProductService`): it hands every call to the repository port unchanged;
- the **persistence adapter** (`JpaProductRepository`): it maps entity trees to domain products and back, builds and saves new trees, replaces variant lists on update, deletes products, and decreases the stock of one variant.

Modules, from the bottom up:

- `Wrappers`: Option (a nullable reference) and Result (a value or a thrown exception).
- `Enums`:
  - `Enum.valueOf` and `name()`;
  - the exact "No enum constant" message.
- `JavaStrings`:
  - `String.trim`, which removes characters up to U+0020;
  - `Long.toString`, used in exception messages.
- `Domain`: the domain model and DTOs, plus the adapter's exceptions and their messages.
- `Entities`: the JPA entity tree; a list field may be null.
- `RepositoryMappers`:
  - the adapter's read mappers and write mappers;
  - the tree built from a create DTO;
  - how saving assigns ids.
- `RepositoryModel`:
  - the store as a value: a map from product id to entity tree, plus the storage's id counter;
  - each adapter operation as a function from the old store to the new store and a result;
  - the lemmas stating what those are.
- `RepositoryAdapter`: the class `JpaProductRepository`, with the store as mutable fields. Each method is proved to move the store exactly as the matching `RepositoryModel` function says.
- `Service`: the class `ProductService`. Each method is proved to do what the port does.
- `GrpcMappers`:
  - the request and response messages;
  - the field checks;
  - the request-to-domain and domain-to-response mappers;
  - the round trip between a response and an update request.
- `GrpcController`:
  - the handlers as functions of the store (`Handle*`);
  - the class `ProductGrpcController`, whose methods are proved equal to those functions;
  - lemmas stating what every handler answers for every request and store.

Three simplifications of the storage the model makes:

- **One id counter.** The storage gives ids to products, variants and images. The model uses one counter for all three, handed out in preorder: the product, then each variant followed by its images. The ids create hands out are fresh with respect to the counter, not with respect to ids an update copied in (see "## Left out").
- **Which variant decreaseStock finds.** Update copies incoming variant ids verbatim, so two products may end up holding a variant with the same id. decreaseStock then takes the product with the smallest id, and the first such variant in its list.
- **findAll ordering.** findAll returns the products in increasing id order.

For a missing variant the controller catches the adapter's RuntimeException and answers FAILED_PRECONDITION, not NOT_FOUND; the model follows the code: `HandleDecreaseStock` answers FAILED_PRECONDITION for both a missing variant and too little stock.

## Model

| member | source | states |
|---|---|---|
| Enums.Ordinal | src/main/java/com/okbasalman/product_service/adapter/input/grpc/ProductGrpcController.java:209 | the lookup behind valueOf: it finds an ordinal exactly when the token is one of the constant names, and the constant at that ordinal has exactly that name (no trimming, no case folding) |
| Enums.OrdinalOfName | src/main/java/com/okbasalman/product_service/adapter/input/grpc/ProductGrpcController.java:209 | with distinct names, looking up the name of constant k finds k |
| Domain.ParseSeason | src/main/java/com/okbasalman/product_service/adapter/input/grpc/ProductGrpcController.java:209 | Season.valueOf succeeds exactly on a Season constant's name and yields the constant with that name; otherwise it fails with Java's message "No enum constant <class>.<token>" |
| Domain.ParseSize | src/main/java/com/okbasalman/product_service/adapter/input/grpc/ProductGrpcController.java:216 | Size.valueOf, with the same success condition, result and failure message as for Season |
| Domain.ParseSeasonName | src/main/java/com/okbasalman/product_service/adapter/input/grpc/ProductGrpcController.java:176 | parsing a season's name() gives back that season |
| Domain.ParseSizeName | src/main/java/com/okbasalman/product_service/adapter/input/grpc/ProductGrpcController.java:189 | parsing a size's name() gives back that size |
| JavaStrings.LongToString | src/main/java/com/okbasalman/product_service/adapter/output/JpaProductRepository.java:34 | `Long.toString` as used in the exception messages: the decimal digits, with a leading minus sign for a negative id; used by `Domain.Message` |
| Domain.Message | src/main/java/com/okbasalman/product_service/adapter/output/JpaProductRepository.java:83-86 | `getMessage()` of the adapter's three RuntimeExceptions; the messages reach the client through `GrpcController.GetProductByIdReply`, `UpdateProductRejected` and `DecreaseStockRejected`, which state them in full |
| JavaStrings.TrimStart | src/main/java/com/okbasalman/product_service/adapter/input/grpc/ProductGrpcController.java:72 | the result is the input with its leading characters at or below U+0020 removed, and only those: a suffix, every removed character trimmable, and empty or starting with a character above U+0020 |
| JavaStrings.TrimEnd | src/main/java/com/okbasalman/product_service/adapter/input/grpc/ProductGrpcController.java:72 | the result is the input with its trailing characters at or below U+0020 removed, and only those: a prefix, every removed character trimmable, and empty or ending with a character above U+0020 |
| JavaStrings.Trim | src/main/java/com/okbasalman/product_service/adapter/input/grpc/ProductGrpcController.java:72 | `String.trim`: TrimEnd after TrimStart; its promise, that the trimmed string is empty exactly when every character is at or below U+0020, is stated by `JavaStrings.TrimEmptyIff` |
| JavaStrings.TrimEmptyIff | src/main/java/com/okbasalman/product_service/adapter/input/grpc/ProductGrpcController.java:72 | `name.trim().isEmpty()` holds exactly when every character of the name is at most U+0020 |
| RepositoryMappers.ImagesOf | src/main/java/com/okbasalman/product_service/adapter/output/JpaProductRepository.java:130-132 | one image per entity, in order, each made from its entity |
| RepositoryMappers.ToImages | src/main/java/com/okbasalman/product_service/adapter/output/JpaProductRepository.java:126-133 | mapToProductImages: a null list (line 127) gives an empty list; otherwise one image per entity, in order, with its id and base64 data |
| RepositoryMappers.VariantsOf | src/main/java/com/okbasalman/product_service/adapter/output/JpaProductRepository.java:110-112 | one variant per entity, in order, each made from its entity |
| RepositoryMappers.ToVariants | src/main/java/com/okbasalman/product_service/adapter/output/JpaProductRepository.java:106-124 | mapToProductVariants: a null list (line 107) gives an empty list; otherwise one variant per entity, in order, with id, price, stock, colour, size and images copied |
| RepositoryMappers.ToProduct | src/main/java/com/okbasalman/product_service/adapter/output/JpaProductRepository.java:96-104 | mapToProduct: copies id, name, description and season and reads the variants through `ToVariants`; its promises are stated by `RepositoryMappers.VariantsRoundTrip`, `ReadBackSaved` and `RepositoryModel.FindAllContents` |
| RepositoryMappers.ImageEntitiesOf | src/main/java/com/okbasalman/product_service/adapter/output/JpaProductRepository.java:194-207 | mapProductImagesToEntities: one entity per image, in order, carrying the image's id and data |
| RepositoryMappers.VariantEntitiesOf | src/main/java/com/okbasalman/product_service/adapter/output/JpaProductRepository.java:175-192 | mapProductVariantsToEntities: one entity per variant, in order, with the variant's id and fields and its images written as entities |
| RepositoryMappers.ImagesRoundTrip | src/main/java/com/okbasalman/product_service/adapter/output/JpaProductRepository.java:194-207 | reading back the image entities update writes gives the images unchanged |
| RepositoryMappers.VariantsRoundTrip | src/main/java/com/okbasalman/product_service/adapter/output/JpaProductRepository.java:175-192 | reading back the variant entities update writes gives the variants unchanged, in order |
| RepositoryMappers.NewImageEntities | src/main/java/com/okbasalman/product_service/adapter/output/JpaProductRepository.java:156-163 | one unsaved image entity (no id) per base64 string, in order |
| RepositoryMappers.NewVariantEntity | src/main/java/com/okbasalman/product_service/adapter/output/JpaProductRepository.java:149-167 | mapToProductEntity, one variant: an entity without an id with the DTO's price, stock, colour, size and new images; stated by `RepositoryMappers.SavedVariantContent` and `ReadBackVariant` |
| RepositoryMappers.NewVariantEntities | src/main/java/com/okbasalman/product_service/adapter/output/JpaProductRepository.java:148-166 | mapToProductEntity, the variant list: one new entity per DTO variant, in order |
| RepositoryMappers.NewProductEntity | src/main/java/com/okbasalman/product_service/adapter/output/JpaProductRepository.java:142-173 | mapToProductEntity: an entity without an id with the DTO's name, description, season and new variants; stated by `RepositoryMappers.SavedProductContent` and `SavedTree` |
| RepositoryMappers.NumberImages | src/main/java/com/okbasalman/product_service/adapter/output/JpaProductRepository.java:48 | saving a list of images gives them consecutive ids from the counter and keeps their data |
| RepositoryMappers.Persist | src/main/java/com/okbasalman/product_service/adapter/output/JpaProductRepository.java:48 | the cascading save: the product, then each variant and its images, get consecutive ids from the counter; stated by `RepositoryMappers.PersistNew`, `SavedTree` and `SavedProductIds` |
| RepositoryMappers.SavedImagesAt | src/main/java/com/okbasalman/product_service/adapter/output/JpaProductRepository.java:48 | saved images are one per base64 string, in order, with consecutive ids |
| RepositoryMappers.ReadBackImages | src/main/java/com/okbasalman/product_service/adapter/output/JpaProductRepository.java:156-163 | the new image entities, saved and read back, are the saved images |
| RepositoryMappers.ReadBackVariant | src/main/java/com/okbasalman/product_service/adapter/output/JpaProductRepository.java:148-168 | one new variant entity, saved and read back, is the saved variant: its DTO's fields, the next id, its images numbered after it |
| RepositoryMappers.SavedVariantContent | src/main/java/com/okbasalman/product_service/adapter/output/JpaProductRepository.java:148-168 | a saved variant carries its DTO's price, stock, colour, size and one image per base64 string, in order |
| RepositoryMappers.SavedImagesIds | src/main/java/com/okbasalman/product_service/adapter/output/JpaProductRepository.java:48 | the ids of saved images are exactly next, next + 1, ... |
| RepositoryMappers.ReadBackSaved | src/main/java/com/okbasalman/product_service/adapter/output/JpaProductRepository.java:148-169 | the new variant entities, saved and read back, are the saved variants, in order |
| RepositoryMappers.SpanOfNew | src/main/java/com/okbasalman/product_service/adapter/output/JpaProductRepository.java:148-169 | saving the new variants uses one id per variant plus one per image |
| RepositoryMappers.SavedVariantsContent | src/main/java/com/okbasalman/product_service/adapter/output/JpaProductRepository.java:148-169 | each saved variant matches its DTO variant, in order |
| RepositoryMappers.SavedVariantsIds | src/main/java/com/okbasalman/product_service/adapter/output/JpaProductRepository.java:148-169 | the preorder ids of the saved variants and their images are exactly a run of consecutive ids |
| RepositoryMappers.SavedProductContent | src/main/java/com/okbasalman/product_service/adapter/output/JpaProductRepository.java:142-173 | the saved product has the DTO's name, description, season and matching variants |
| RepositoryMappers.SavedProductIds | src/main/java/com/okbasalman/product_service/adapter/output/JpaProductRepository.java:142-173 | the saved product's ids in preorder (product, then each variant followed by its images) are exactly a run of consecutive ids starting at the product's id |
| RepositoryMappers.SavedTree | src/main/java/com/okbasalman/product_service/adapter/output/JpaProductRepository.java:45-50 | create's result carries the DTO's content, and every node of the saved tree has a fresh id: exactly the ids from the old counter up to the new one |
| RepositoryMappers.PersistNew | src/main/java/com/okbasalman/product_service/adapter/output/JpaProductRepository.java:45-50 | saving the tree built from a DTO and reading it back gives the saved product; the counter advances by the number of nodes |
| RepositoryModel.SortedIds | src/main/java/com/okbasalman/product_service/adapter/output/JpaProductRepository.java:38-43 | an ordering of a set of ids: as many entries as the set has elements, each one from the set |
| RepositoryModel.SortedIdsComplete | src/main/java/com/okbasalman/product_service/adapter/output/JpaProductRepository.java:38-43 | every id of the set appears in the ordering |
| RepositoryModel.SortedIdsIncreasing | src/main/java/com/okbasalman/product_service/adapter/output/JpaProductRepository.java:38-43 | the ordering is strictly increasing, so no id repeats |
| RepositoryModel.FindAll | src/main/java/com/okbasalman/product_service/adapter/output/JpaProductRepository.java:38-43 | findAll: every stored product read back; stated by `RepositoryModel.FindAllContents` and proved equal to `RepositoryAdapter.JpaProductRepository.FindAll` |
| RepositoryModel.FindAllAt | src/main/java/com/okbasalman/product_service/adapter/output/JpaProductRepository.java:38-43 | helper for FindAllContents: findAll's i-th product is the stored product with the i-th smallest id, read back (the order is the one admitted under "## Left out") |
| RepositoryModel.FindAllContents | src/main/java/com/okbasalman/product_service/adapter/output/JpaProductRepository.java:38-43 | findAll returns every stored product exactly once, read back, in increasing id order, and nothing else |
| RepositoryModel.FindById | src/main/java/com/okbasalman/product_service/adapter/output/JpaProductRepository.java:31-36 | findById: the stored product read back, or not-found naming the id; proved equal to `RepositoryAdapter.JpaProductRepository.FindById` |
| RepositoryModel.Create | src/main/java/com/okbasalman/product_service/adapter/output/JpaProductRepository.java:45-50 | create: build the tree, save it, read it back; stated by `RepositoryModel.CreateSpec` and `RepositoryMappers.SavedTree`, and proved equal to `RepositoryAdapter.JpaProductRepository.Create` |
| RepositoryModel.CreateSpec | src/main/java/com/okbasalman/product_service/adapter/output/JpaProductRepository.java:45-50 | create keeps the store valid and adds exactly one product under a fresh non-zero id, leaving the others unchanged. A later findById returns the result, which carries the DTO's content, and all its tree ids are distinct and taken from the counter (from the old value up to the new one) |
| RepositoryModel.DeleteById | src/main/java/com/okbasalman/product_service/adapter/output/JpaProductRepository.java:52-59 | deleteById: the soft not-found result or removal of the tree; stated by `RepositoryModel.DeleteSpec` and proved equal to `RepositoryAdapter.JpaProductRepository.DeleteById` |
| RepositoryModel.DeleteSpec | src/main/java/com/okbasalman/product_service/adapter/output/JpaProductRepository.java:52-59 | delete succeeds exactly when the product exists, with the source's two messages. A missing id changes nothing; a present one removes only that product's tree, and a later findById of it fails not-found |
| RepositoryModel.Update | src/main/java/com/okbasalman/product_service/adapter/output/JpaProductRepository.java:61-78 | update: overwrite the fields and replace the variant list; stated by `RepositoryModel.UpdateSpec`, `UpdateDropsOmitted` and `UpdateIdempotent`, and proved equal to `RepositoryAdapter.JpaProductRepository.Update` |
| RepositoryModel.UpdateSpec | src/main/java/com/okbasalman/product_service/adapter/output/JpaProductRepository.java:61-78 | update of a missing id fails not-found and changes nothing. Otherwise it returns and stores exactly the incoming product (fields and variant list replaced, in order), and no other product changes |
| RepositoryModel.UpdateDropsOmitted | src/main/java/com/okbasalman/product_service/adapter/output/JpaProductRepository.java:71-74 | after update, no stored variant of the product has an id the incoming product does not carry |
| RepositoryModel.UpdateIdempotent | src/main/java/com/okbasalman/product_service/adapter/output/JpaProductRepository.java:61-78 | applying the same update twice gives the same store and result as applying it once |
| RepositoryModel.VariantIndex | src/main/java/com/okbasalman/product_service/adapter/output/JpaProductRepository.java:82-83 | the first position holding a variant with the id, or none exactly when no variant has it |
| RepositoryModel.LocateVariant | src/main/java/com/okbasalman/product_service/adapter/output/JpaProductRepository.java:82-83 | the variant lookup fails exactly when no stored product holds the variant id; otherwise it names a stored product that does |
| RepositoryModel.LocateVariantSpec | src/main/java/com/okbasalman/product_service/adapter/output/JpaProductRepository.java:82-83 | the lookup fails exactly when no stored product has a variant with the id; when several do, it picks the one with the smallest id |
| RepositoryModel.DecreaseStock | src/main/java/com/okbasalman/product_service/adapter/output/JpaProductRepository.java:80-93 | decreaseStock: locate the variant, check the stock, subtract; stated by `RepositoryModel.DecreaseStockNotFound`, `DecreaseStockInsufficient` and `DecreaseStockSucceeds`, and proved equal to `RepositoryAdapter.JpaProductRepository.DecreaseStock` |
| RepositoryModel.DecreaseStockNotFound | src/main/java/com/okbasalman/product_service/adapter/output/JpaProductRepository.java:82-83 | decreaseStock of an unknown variant id fails variant-not-found and leaves the store unchanged |
| RepositoryModel.DecreaseStockValid | src/main/java/com/okbasalman/product_service/adapter/output/JpaProductRepository.java:80-93 | decreaseStock keeps the store valid on every path |
| RepositoryModel.DecreaseInValid | src/main/java/com/okbasalman/product_service/adapter/output/JpaProductRepository.java:85-90 | the stock check and save of a found variant keep the store valid |
| RepositoryModel.DecreaseStockInsufficient | src/main/java/com/okbasalman/product_service/adapter/output/JpaProductRepository.java:85-87 | too little stock fails insufficient-stock and changes nothing |
| RepositoryModel.DecreaseStockSucceeds | src/main/java/com/okbasalman/product_service/adapter/output/JpaProductRepository.java:89-92 | with enough stock, only the located variant changes: its stock drops by the quantity and stays non-negative. No other variant or product changes, and the owning product as now stored is returned |
| RepositoryModel.VariantIndexSameIds | src/main/java/com/okbasalman/product_service/adapter/output/JpaProductRepository.java:89-90 | the lookup depends only on the variant ids, so lowering a stock does not move it |
| RepositoryModel.DecreaseStockLocatesSame | src/main/java/com/okbasalman/product_service/adapter/output/JpaProductRepository.java:89-90 | after a successful decrease, the same id finds the same variant, with the lowered stock |
| RepositoryModel.TwoDecreases | src/main/java/com/okbasalman/product_service/adapter/output/JpaProductRepository.java:80-93 | two decreases in a row add up: the second succeeds exactly when what the first left is enough, and then the stock has dropped by both; otherwise the second fails insufficient-stock and changes nothing |
| RepositoryAdapter.JpaProductRepository.constructor | src/main/java/com/okbasalman/product_service/adapter/output/JpaProductRepository.java:26-29 | an empty, valid catalogue |
| RepositoryAdapter.JpaProductRepository.FindById | src/main/java/com/okbasalman/product_service/adapter/output/JpaProductRepository.java:31-36 | matches the findById function: not-found naming the id when absent, otherwise the product with that id |
| RepositoryAdapter.JpaProductRepository.FindAll | src/main/java/com/okbasalman/product_service/adapter/output/JpaProductRepository.java:38-43 | matches the findAll function: every stored product, read back, in increasing id order |
| RepositoryAdapter.JpaProductRepository.Create | src/main/java/com/okbasalman/product_service/adapter/output/JpaProductRepository.java:45-50 | keeps the store valid; the new store and result are exactly those of the create function |
| RepositoryAdapter.JpaProductRepository.DeleteById | src/main/java/com/okbasalman/product_service/adapter/output/JpaProductRepository.java:52-59 | keeps the store valid; the new store and result are exactly those of the deleteById function |
| RepositoryAdapter.JpaProductRepository.Update | src/main/java/com/okbasalman/product_service/adapter/output/JpaProductRepository.java:61-78 | keeps the store valid; the new store and result are exactly those of the update function |
| RepositoryAdapter.JpaProductRepository.DecreaseStock | src/main/java/com/okbasalman/product_service/adapter/output/JpaProductRepository.java:80-93 | keeps the store valid; the new store and result are exactly those of the decreaseStock function |
| Service.ProductService.constructor | src/main/java/com/okbasalman/product_service/domain/service/ProductService.java:18-20 | the service holds the given port |
| Service.ProductService.GetProductById | src/main/java/com/okbasalman/product_service/domain/service/ProductService.java:23-27 | returns the port's findById result |
| Service.ProductService.GetAllProducts | src/main/java/com/okbasalman/product_service/domain/service/ProductService.java:29-33 | returns the port's findAll result |
| Service.ProductService.CreateProduct | src/main/java/com/okbasalman/product_service/domain/service/ProductService.java:35-39 | moves the store and returns exactly as the port's create |
| Service.ProductService.UpdateProduct | src/main/java/com/okbasalman/product_service/domain/service/ProductService.java:41-45 | moves the store and returns exactly as the port's update |
| Service.ProductService.DeleteProduct | src/main/java/com/okbasalman/product_service/domain/service/ProductService.java:47-51 | moves the store and returns exactly as the port's deleteById |
| Service.ProductService.DecreaseStock | src/main/java/com/okbasalman/product_service/domain/service/ProductService.java:53-57 | moves the store and returns exactly as the port's decreaseStock |
| GrpcMappers.CheckCreate | src/main/java/com/okbasalman/product_service/adapter/input/grpc/ProductGrpcController.java:72-77 | createProduct's checks pass exactly when the name is not blank and there is a variant; a blank name is reported before an empty list |
| GrpcMappers.CheckUpdate | src/main/java/com/okbasalman/product_service/adapter/input/grpc/ProductGrpcController.java:99-107 | updateProduct's checks pass exactly when the id is non-zero, the name not blank and there is a variant; failures are reported in that order |
| GrpcMappers.CheckDecrease | src/main/java/com/okbasalman/product_service/adapter/input/grpc/ProductGrpcController.java:149-154 | decreaseStock's checks pass exactly when the variant id is non-zero and the quantity positive; a zero id is reported first |
| GrpcMappers.VariantDtoOf | src/main/java/com/okbasalman/product_service/adapter/input/grpc/ProductGrpcController.java:211-221 | a variant maps exactly when its size is a Size name, and then its fields and images are copied; otherwise valueOf's message |
| GrpcMappers.FirstUnknownSize | src/main/java/com/okbasalman/product_service/adapter/input/grpc/ProductGrpcController.java:210-222 | the first position whose size is not a Size name, or none exactly when all are names |
| GrpcMappers.VariantDtosOf | src/main/java/com/okbasalman/product_service/adapter/input/grpc/ProductGrpcController.java:210-222 | the variants map exactly when every size is a name, one DTO variant per request variant, in order; otherwise the first unknown size's message |
| GrpcMappers.CreateDtoOf | src/main/java/com/okbasalman/product_service/adapter/input/grpc/ProductGrpcController.java:203-224 | the season is checked first, then sizes in order. It succeeds exactly when all are names, with name, description, season and every variant copied; otherwise the first failure's valueOf message |
| GrpcMappers.ImagesOfRequests | src/main/java/com/okbasalman/product_service/adapter/input/grpc/ProductGrpcController.java:240-242 | one image per image request, in order, with its id and data |
| GrpcMappers.VariantOfRequest | src/main/java/com/okbasalman/product_service/adapter/input/grpc/ProductGrpcController.java:233-243 | an update variant maps exactly when its size is a name, copying id, fields and images; otherwise valueOf's message |
| GrpcMappers.VariantsOfRequests | src/main/java/com/okbasalman/product_service/adapter/input/grpc/ProductGrpcController.java:232-244 | the update variants map exactly when every size is a name, one domain variant per request variant, in order; otherwise the first unknown size's message |
| GrpcMappers.ProductOf | src/main/java/com/okbasalman/product_service/adapter/input/grpc/ProductGrpcController.java:226-246 | the update request maps exactly when the season and every size are names, copying id, name, description and every variant in order; otherwise the first failure's message |
| GrpcMappers.ImageResponsesOf | src/main/java/com/okbasalman/product_service/adapter/input/grpc/ProductGrpcController.java:196-201 | one image response per image, in order, with its id and data |
| GrpcMappers.VariantResponsesOf | src/main/java/com/okbasalman/product_service/adapter/input/grpc/ProductGrpcController.java:183-194 | one variant response per variant, in order, showing every field and the size by name |
| GrpcMappers.ProductResponseOf | src/main/java/com/okbasalman/product_service/adapter/input/grpc/ProductGrpcController.java:171-181 | a product response shows id, name, description, the season by name, and every variant in order |
| GrpcMappers.ProductResponsesOf | src/main/java/com/okbasalman/product_service/adapter/input/grpc/ProductGrpcController.java:59 | one response per product, in order |
| GrpcMappers.ResentImagesRoundTrip | src/main/java/com/okbasalman/product_service/adapter/input/grpc/ProductGrpcController.java:196-201 | images shown in a response and sent back map to the same images |
| GrpcMappers.ResendVariantRoundTrip | src/main/java/com/okbasalman/product_service/adapter/input/grpc/ProductGrpcController.java:183-194 | a variant shown in a response and sent back maps to the same variant |
| GrpcMappers.ResentSizesKnown | src/main/java/com/okbasalman/product_service/adapter/input/grpc/ProductGrpcController.java:189 | every size name a response shows is a Size constant's name |
| GrpcMappers.ResentVariantsBack | src/main/java/com/okbasalman/product_service/adapter/input/grpc/ProductGrpcController.java:232-244 | the variants of a response sent back map to the product's variants |
| GrpcMappers.ResendRoundTrip | src/main/java/com/okbasalman/product_service/adapter/input/grpc/ProductGrpcController.java:226-246 | mapToProduct undoes mapToProductResponse: a product shown and sent back as an update request maps to the same product |
| GrpcController.HandleGetProductById | src/main/java/com/okbasalman/product_service/adapter/input/grpc/ProductGrpcController.java:40-52 | getProductById: the product's response, or NOT_FOUND; stated by `GrpcController.GetProductByIdReply` and proved equal to `GrpcController.ProductGrpcController.GetProductById` |
| GrpcController.HandleGetAllProducts | src/main/java/com/okbasalman/product_service/adapter/input/grpc/ProductGrpcController.java:54-66 | getAllProducts: one response per product; stated by `GrpcController.GetAllProductsReply` and proved equal to `GrpcController.ProductGrpcController.GetAllProducts` |
| GrpcController.HandleCreateProduct | src/main/java/com/okbasalman/product_service/adapter/input/grpc/ProductGrpcController.java:68-93 | createProduct: checks, mapping, use case; stated by `GrpcController.CreateProductRejected` and `CreateProductAccepted`, and proved equal to `GrpcController.ProductGrpcController.CreateProduct` |
| GrpcController.HandleUpdateProduct | src/main/java/com/okbasalman/product_service/adapter/input/grpc/ProductGrpcController.java:95-125 | updateProduct: checks, mapping, use case, NOT_FOUND for a runtime failure; stated by `GrpcController.UpdateProductRejected` and `UpdateProductAccepted`, and proved equal to `GrpcController.ProductGrpcController.UpdateProduct` |
| GrpcController.HandleDeleteProduct | src/main/java/com/okbasalman/product_service/adapter/input/grpc/ProductGrpcController.java:127-144 | deleteProduct: NOT_FOUND with the result's message when unsuccessful, otherwise the result; stated by `GrpcController.DeleteProductReply` and proved equal to `GrpcController.ProductGrpcController.DeleteProduct` |
| GrpcController.HandleDecreaseStock | src/main/java/com/okbasalman/product_service/adapter/input/grpc/ProductGrpcController.java:146-168 | decreaseStock: checks, use case, FAILED_PRECONDITION for a runtime failure; stated by `GrpcController.DecreaseStockRejected` and `DecreaseStockAccepted`, and proved equal to `GrpcController.ProductGrpcController.DecreaseStock` |
| GrpcController.GetProductByIdReply | src/main/java/com/okbasalman/product_service/adapter/input/grpc/ProductGrpcController.java:40-52 | getProductById answers the stored product's response, or NOT_FOUND with "Product not found with ID: <id>" |
| GrpcController.GetAllProductsReply | src/main/java/com/okbasalman/product_service/adapter/input/grpc/ProductGrpcController.java:54-66 | getAllProducts answers one response per stored product, every stored product included, in increasing id order |
| GrpcController.CreateProductRejected | src/main/java/com/okbasalman/product_service/adapter/input/grpc/ProductGrpcController.java:68-93 | createProduct fails exactly on a blank name, no variants, or an unknown season or size name. It then answers INVALID_ARGUMENT with the first failure's message and leaves the store unchanged |
| GrpcController.CreateProductAccepted | src/main/java/com/okbasalman/product_service/adapter/input/grpc/ProductGrpcController.java:68-93 | an accepted createProduct keeps the store valid and adds exactly one product under a fresh non-zero id that getProductById then finds. Its response shows the request's name, description, season and variants, in order |
| GrpcController.CreateShown | src/main/java/com/okbasalman/product_service/adapter/input/grpc/ProductGrpcController.java:203-224 | the response to the product built from a create request shows the request's content |
| GrpcController.UpdateProductRejected | src/main/java/com/okbasalman/product_service/adapter/input/grpc/ProductGrpcController.java:95-125 | bad checks or enum names answer INVALID_ARGUMENT with the first failure's message, and a missing id answers NOT_FOUND naming it; in each case the store is unchanged |
| GrpcController.UpdateProductAccepted | src/main/java/com/okbasalman/product_service/adapter/input/grpc/ProductGrpcController.java:95-125 | an accepted update answers exactly what was sent (the response sent back is the same request), stores it, and leaves every other product unchanged |
| GrpcController.EchoImages | src/main/java/com/okbasalman/product_service/adapter/input/grpc/ProductGrpcController.java:240-242 | image requests mapped to images and shown again give back the requests |
| GrpcController.EchoUpdate | src/main/java/com/okbasalman/product_service/adapter/input/grpc/ProductGrpcController.java:226-246 | an update request mapped to a product and shown again gives back the request |
| GrpcController.DeleteProductReply | src/main/java/com/okbasalman/product_service/adapter/input/grpc/ProductGrpcController.java:127-144 | deleteProduct answers success exactly when the product exists; otherwise NOT_FOUND with "Product not found." and the store unchanged |
| GrpcController.DecreaseStockRejected | src/main/java/com/okbasalman/product_service/adapter/input/grpc/ProductGrpcController.java:146-168 | the store changes only for a non-zero variant id and a positive quantity. A bad request answers INVALID_ARGUMENT; a missing variant or too little stock answers FAILED_PRECONDITION with the adapter's message and leaves the store unchanged |
| GrpcController.DecreaseStockAccepted | src/main/java/com/okbasalman/product_service/adapter/input/grpc/ProductGrpcController.java:146-168 | an accepted decrease lowers the located variant's stock by the quantity, leaving it below the old value but non-negative, and answers the owning product as now stored |
| GrpcController.ProductGrpcController.constructor | src/main/java/com/okbasalman/product_service/adapter/input/grpc/ProductGrpcController.java:36-38 | the controller holds the given use case |
| GrpcController.ProductGrpcController.GetProductById | src/main/java/com/okbasalman/product_service/adapter/input/grpc/ProductGrpcController.java:40-52 | answers exactly what the getProductById handler function says for the current store |
| GrpcController.ProductGrpcController.GetAllProducts | src/main/java/com/okbasalman/product_service/adapter/input/grpc/ProductGrpcController.java:54-66 | answers exactly what the getAllProducts handler function says for the current store |
| GrpcController.ProductGrpcController.CreateProduct | src/main/java/com/okbasalman/product_service/adapter/input/grpc/ProductGrpcController.java:68-93 | keeps the store valid; the new store and answer are exactly those of the createProduct handler function |
| GrpcController.ProductGrpcController.UpdateProduct | src/main/java/com/okbasalman/product_service/adapter/input/grpc/ProductGrpcController.java:95-125 | keeps the store valid; the new store and answer are exactly those of the updateProduct handler function |
| GrpcController.ProductGrpcController.DeleteProduct | src/main/java/com/okbasalman/product_service/adapter/input/grpc/ProductGrpcController.java:127-144 | keeps the store valid; the new store and answer are exactly those of the deleteProduct handler function |
| GrpcController.ProductGrpcController.DecreaseStock | src/main/java/com/okbasalman/product_service/adapter/input/grpc/ProductGrpcController.java:146-168 | keeps the store valid; the new store and answer are exactly those of the decreaseStock handler function |

## Left out

- gRPC transport: the `StreamObserver` calls `onNext`, `onCompleted` and `onError` become the returned `Reply` value.
- The INTERNAL branches (`catch (Exception e)`) are not modelled. Every failure the model can raise is one of the adapter's RuntimeExceptions or an IllegalArgumentException, and these never reach those branches. Storage and driver failures are not modelled.
- The console logging in `mapToProductCreateDto` is not modelled: it has no effect on any result.
- Spring Data and JPA mechanics are not modelled: fetch joins, lazy loading, transactions (`@Transactional`), cascades, and the separate variant repository. The products table stands in for them.
- Concurrency is not modelled: every operation runs alone on the store.
- Prices are Java doubles; the model uses `real`, because prices are only copied, never computed with.
- Base64 image data is opaque text: it is never decoded.
- Java `int` and `long` widths are not modelled; integers are unbounded. No range checks are made on ids, stock or quantity, and `stock - quantity` never overflows in the model.
- Null strings are not modelled: protobuf getters never return null.
- Domain lists are never null in the model, so the `variants == null` and `images == null` guards of the update mappers (`mapProductVariantsToEntities`, `mapProductImagesToEntities`) are not modelled. Null entity lists are modelled, through `Option`.
- The database keeps one identity sequence per table. The model uses one counter for all tables instead: the ids it hands out are distinct and fresh with respect to the counter.
- RepositoryModel.UpdateSpec, GrpcController.UpdateProductAccepted, RepositoryModel.UpdateDropsOmitted and RepositoryModel.UpdateIdempotent: update stores the incoming variants and images with their ids exactly as sent; the storage's merge of those ids is not modelled, and these four promises hold only in the model because of that. First, an incoming variant id that another product's variant already holds would be merged into that row and re-parented to the updated product (`setProduct` at JpaProductRepository.java:187), so the other product would lose that variant; the model's "every other product unchanged" does not capture this. Second, a variant a client adds arrives with the protobuf default id 0, which no row holds; the storage then either inserts it under a generated id, so the answer is not exactly what was sent, or rejects the merge, which updateProduct answers NOT_FOUND. With a generated id G the stored product holds a variant id the request does not carry, so "omitted variants are gone" fails, and a second identical update inserts another row, so the update is not idempotent; with a rejected merge the old variants stay, which also contradicts "omitted variants are gone". The adapter makes no check that copied ids belong to the product, and neither does the model.
- RepositoryModel.CreateSpec, RepositoryModel.UpdateSpec, GrpcController.CreateProductAccepted, GrpcController.UpdateProductAccepted and RepositoryModel.DecreaseStockSucceeds: a later load of a product (findById, findAll, and decreaseStock's reply, which reloads the variants) gives its variant and image lists in the order they were stored. The source promises no such order: the image collection carries no `@OrderBy` or `@OrderColumn` (ProductVariantEntity.java:47-49), and the fetch-join queries that load the variants have no ORDER BY (ProductRepository.java:15, 18), so the database decides the order. The answers that create and update return directly do keep the order in which they were built.
- RepositoryModel.FindAll: the storage's query has no ORDER BY, so the source promises no order. The model fixes increasing id order.
- RepositoryModel.CreateSpec: the new ids are fresh with respect to the counter only. Update stores copied variant and image ids as sent, even ids at or above the counter, and the store invariant does not bound tree ids by the counter. A later create may therefore hand out a variant or image id that an update copied in. decreaseStock of such an id then resolves to the product with the smallest id, so the newly created variant cannot be decreased. The real storage's per-table identity sequence and primary key rule this out; how the storage treats unknown copied ids on update is not modelled.
- LocateVariant: the real lookup is a primary-key lookup in the variants table. The smallest-product-id rule only matters when update has copied an id into a second product.
- `Season.java` and `Size.java` are not among the sources; the constant names (SPRING, SUMMER, FALL, WINTER; XS, S, M, L, XL, XXL) are assumed, and the proofs use only that they are distinct.
- The configuration class and the application entry point are not modelled (`ProductServiceConfig`, `ProductServiceApplication`). Nor are the port interfaces (`ProductUseCase`, `ProductRepositoryPort`): the service holds the adapter class, and the controller holds the service class.
